/** Pushdown bounds from a WHERE clause (internal/query/planner.go). */
module Planner {
  import opened Types
  import opened Decimal
  import opened QueryAst
  import opened Evaluator
  import opened Scan
  import Scope

  function LiteralToTimestamp(k: Clock, lit: Literal): Option<Timestamp> {
    if lit.num.Some? then lit.num
    else if lit.text.None? then None
    else k.parse(lit.text.value)
  }

  /** 0 doubles as "unset". */
  function NarrowedMin(o: ScanOptions, ts: Timestamp): ScanOptions {
    if o.minTimestamp == 0 || ts > o.minTimestamp then o.(minTimestamp := ts) else o
  }

  function NarrowedMax(o: ScanOptions, ts: Timestamp): ScanOptions {
    if o.maxTimestamp == 0 || ts < o.maxTimestamp then o.(maxTimestamp := ts) else o
  }

  function Applied(k: Clock, o: ScanOptions, c: CmpExpr): ScanOptions {
    if c.Sub? || c.cmp.field != FieldRef("ts", "") || LiteralToTimestamp(k, c.cmp.value).None? then o
    else
      var ts := LiteralToTimestamp(k, c.cmp.value).value;
      if c.cmp.op == "=" then NarrowedMax(NarrowedMin(o, ts), ts)
      else if c.cmp.op == ">" || c.cmp.op == ">=" then NarrowedMin(o, ts)
      else if c.cmp.op == "<" || c.cmp.op == "<=" then NarrowedMax(o, ts)
      else o
  }

  function AppliedAll(k: Clock, o: ScanOptions, cs: seq<CmpExpr>): ScanOptions
    decreases |cs|
  {
    if cs == [] then o else AppliedAll(k, Applied(k, o, cs[0]), cs[1..])
  }

  function PlanOf(k: Clock, where: Option<Expr>): ScanOptions {
    if where.None? || where.value.or.rest != [] then NO_OPTIONS
    else
      var a := where.value.or.conj;
      AppliedAll(k, Applied(k, NO_OPTIONS, a.cmp), a.rest)
  }

  /** The options value the extraction narrows in place. */
  class PlanOptions {
    var minTimestamp: Timestamp
    var maxTimestamp: Timestamp

    function Options(): ScanOptions
      reads this
    {
      ScanOptions(minTimestamp, maxTimestamp)
    }

    constructor ()
      ensures Options() == NO_OPTIONS
    {
      minTimestamp, maxTimestamp := 0, 0;
    }

    method NarrowMin(ts: Timestamp)
      modifies `minTimestamp
      ensures Options() == NarrowedMin(old(Options()), ts)
    {
      if minTimestamp == 0 || ts > minTimestamp { minTimestamp := ts; }
    }

    method NarrowMax(ts: Timestamp)
      modifies `maxTimestamp
      ensures Options() == NarrowedMax(old(Options()), ts)
    {
      if maxTimestamp == 0 || ts < maxTimestamp { maxTimestamp := ts; }
    }

    method ApplyCmp(k: Clock, c: CmpExpr)
      modifies this
      ensures Options() == Applied(k, old(Options()), c)
    {
      if c.Sub? { return; }
      if c.cmp.field.key != "" || c.cmp.field.name != "ts" { return; }
      var ts := LiteralToTimestamp(k, c.cmp.value);
      if ts.None? { return; }
      match c.cmp.op {
        case "=" =>
          NarrowMin(ts.value);
          NarrowMax(ts.value);
        case ">" => NarrowMin(ts.value);
        case ">=" => NarrowMin(ts.value);
        case "<" => NarrowMax(ts.value);
        case "<=" => NarrowMax(ts.value);
        case _ =>
      }
    }

    method ExtractFromAnd(k: Clock, a: AndExpr)
      modifies this
      ensures Options() == AppliedAll(k, Applied(k, old(Options()), a.cmp), a.rest)
    {
      ApplyCmp(k, a.cmp);
      var i := 0;
      assert a.rest[0..] == a.rest;
      while i < |a.rest|
        invariant i <= |a.rest|
        invariant AppliedAll(k, Applied(k, old(Options()), a.cmp), a.rest) == AppliedAll(k, Options(), a.rest[i..])
      {
        assert a.rest[i..][0] == a.rest[i] && a.rest[i..][1..] == a.rest[i + 1..];
        ApplyCmp(k, a.rest[i]);
        i := i + 1;
      }
    }
  }

  method Plan(k: Clock, where: Option<Expr>) returns (o: ScanOptions)
    ensures o == PlanOf(k, where)
  {
    var opts := new PlanOptions();
    if where.None? { return opts.Options(); }
    var or := where.value.or;
    if |or.rest| > 0 { return opts.Options(); }
    opts.ExtractFromAnd(k, or.conj);
    o := opts.Options();
  }

  // ---- the bounds are implied -------------------------------------------------------------------

  ghost predicate Within(o: ScanOptions, ts: Timestamp) {
    (o.minTimestamp != 0 ==> o.minTimestamp <= ts) && (o.maxTimestamp != 0 ==> ts <= o.maxTimestamp)
  }

  /** A conjunct only ever adds a bound that its truth implies. */
  lemma AppliedKeepsWithin(k: Clock, o: ScanOptions, c: CmpExpr, id: DocID, rec: LogRecord)
    requires Within(o, rec.timestamp) && EvalCmp(k, c, id, rec) == Ok(true)
    ensures Within(Applied(k, o, c), rec.timestamp)
  {
    hide EvalCompare, Print;
    if c.Leaf? && c.cmp.field == FieldRef("ts", "") && LiteralToTimestamp(k, c.cmp.value).Some? && KnownOp(c.cmp.op) {
      NumericCompare(k, c.cmp, LiteralToTimestamp(k, c.cmp.value).value, id, rec);
    }
  }

  lemma {:induction false} AllAppliedKeepWithin(k: Clock, o: ScanOptions, cs: seq<CmpExpr>, id: DocID, rec: LogRecord)
    requires Within(o, rec.timestamp) && EvalAll(k, cs, id, rec) == Ok(true)
    ensures Within(AppliedAll(k, o, cs), rec.timestamp)
    decreases |cs|
  {
    hide EvalCmp, Applied, Within;
    if cs != [] {
      AppliedKeepsWithin(k, o, cs[0], id, rec);
      AllAppliedKeepWithin(k, Applied(k, o, cs[0]), cs[1..], id, rec);
    }
  }

  /** Every record a WHERE accepts lies within the bounds planned for it. */
  lemma PlanIsImplied(k: Clock, where: Option<Expr>, id: DocID, rec: LogRecord)
    requires Eval(k, where, id, rec) == Ok(true)
    ensures Within(PlanOf(k, where), rec.timestamp)
  {
    hide EvalCmp, Applied;
    if where.Some? && where.value.or.rest == [] {
      var a := where.value.or.conj;
      assert EvalAny(k, [], id, rec) == Ok(false);
      assert EvalAnd(k, a, id, rec) == Ok(true);
      AppliedKeepsWithin(k, NO_OPTIONS, a.cmp, id, rec);
      AllAppliedKeepWithin(k, Applied(k, NO_OPTIONS, a.cmp), a.rest, id, rec);
    }
  }

  // ---- the bounds are the tightest the conjuncts give -------------------------------------------

  /** The timestamp a conjunct compares ts with, under one of the operators. */
  function Bound(k: Clock, c: CmpExpr, ops: set<string>): Option<Timestamp> {
    if c.Leaf? && c.cmp.field == FieldRef("ts", "") && c.cmp.op in ops then
      if c.cmp.value.num.Some? then c.cmp.value.num
      else if c.cmp.value.text.Some? then k.parse(c.cmp.value.text.value)
      else None
    else None
  }

  function Lower(k: Clock, c: CmpExpr): Option<Timestamp> {
    Bound(k, c, {"=", ">", ">="})
  }

  function Upper(k: Clock, c: CmpExpr): Option<Timestamp> {
    Bound(k, c, {"=", "<", "<="})
  }

  lemma AppliedBounds(k: Clock, o: ScanOptions, c: CmpExpr)
    ensures Applied(k, o, c) ==
      ScanOptions(if Lower(k, c).Some? && (o.minTimestamp == 0 || Lower(k, c).value > o.minTimestamp)
                  then Lower(k, c).value else o.minTimestamp,
                  if Upper(k, c).Some? && (o.maxTimestamp == 0 || Upper(k, c).value < o.maxTimestamp)
                  then Upper(k, c).value else o.maxTimestamp)
  {
  }

  lemma {:induction false} FoldedMin(k: Clock, o: ScanOptions, cs: seq<CmpExpr>, t: Timestamp)
    requires forall c | c in cs && Lower(k, c).Some? :: Lower(k, c).value <= t
    requires o.minTimestamp != 0 ==> o.minTimestamp <= t
    ensures AppliedAll(k, o, cs).minTimestamp != 0 ==> AppliedAll(k, o, cs).minTimestamp <= t
    ensures t != 0 && (o.minTimestamp == t || exists c :: c in cs && Lower(k, c) == Some(t)) ==>
      AppliedAll(k, o, cs).minTimestamp == t
    ensures (forall c | c in cs :: Lower(k, c).None?) ==> AppliedAll(k, o, cs).minTimestamp == o.minTimestamp
    decreases |cs|
  {
    hide Lower, Upper, Applied;
    if cs != [] {
      AppliedBounds(k, o, cs[0]);
      assert cs[0] in cs && forall c | c in cs :: c == cs[0] || c in cs[1..];
      FoldedMin(k, Applied(k, o, cs[0]), cs[1..], t);
    }
  }

  lemma {:induction false} FoldedMax(k: Clock, o: ScanOptions, cs: seq<CmpExpr>, t: Timestamp)
    requires forall c | c in cs && Upper(k, c).Some? :: t <= Upper(k, c).value
    requires o.maxTimestamp != 0 ==> t <= o.maxTimestamp
    ensures AppliedAll(k, o, cs).maxTimestamp != 0 ==> t <= AppliedAll(k, o, cs).maxTimestamp
    ensures t != 0 && (o.maxTimestamp == t || exists c :: c in cs && Upper(k, c) == Some(t)) ==>
      AppliedAll(k, o, cs).maxTimestamp == t
    ensures (forall c | c in cs :: Upper(k, c).None?) ==> AppliedAll(k, o, cs).maxTimestamp == o.maxTimestamp
    decreases |cs|
  {
    hide Lower, Upper, Applied;
    if cs != [] {
      AppliedBounds(k, o, cs[0]);
      assert cs[0] in cs && forall c | c in cs :: c == cs[0] || c in cs[1..];
      FoldedMax(k, Applied(k, o, cs[0]), cs[1..], t);
    }
  }

  lemma PlanIsFold(k: Clock, a: AndExpr)
    ensures PlanOf(k, Some(Expr(OrExpr(a, [])))) == AppliedAll(k, NO_OPTIONS, [a.cmp] + a.rest)
  {
    assert ([a.cmp] + a.rest)[1..] == a.rest;
  }

  ghost predicate LargestLower(k: Clock, cs: seq<CmpExpr>, t: Timestamp) {
    (exists c :: c in cs && Lower(k, c) == Some(t)) && forall c | c in cs && Lower(k, c).Some? :: Lower(k, c).value <= t
  }

  ghost predicate SmallestUpper(k: Clock, cs: seq<CmpExpr>, t: Timestamp) {
    (exists c :: c in cs && Upper(k, c) == Some(t)) && forall c | c in cs && Upper(k, c).Some? :: t <= Upper(k, c).value
  }

  /**
   An AND chain plans the largest of its lower and the smallest of its upper bounds on ts, and none when no conjunct
   gives one. A bound of 0 is the exception: the options take it for "unset", and the scan may reach beyond it.
   */
  lemma PlanIsTightest(k: Clock, a: AndExpr, t: Timestamp)
    ensures var o, cs := PlanOf(k, Some(Expr(OrExpr(a, [])))), [a.cmp] + a.rest;
      && (LargestLower(k, cs, t) ==> if t != 0 then o.minTimestamp == t else o.minTimestamp <= 0)
      && (SmallestUpper(k, cs, t) ==> if t != 0 then o.maxTimestamp == t else o.maxTimestamp >= 0)
      && ((forall c | c in cs :: Lower(k, c).None?) ==> o.minTimestamp == 0)
      && ((forall c | c in cs :: Upper(k, c).None?) ==> o.maxTimestamp == 0)
  {
    hide Lower, Upper, PlanOf, AppliedAll;
    var cs := [a.cmp] + a.rest;
    PlanIsFold(k, a);
    if LargestLower(k, cs, t) || forall c | c in cs :: Lower(k, c).None? {
      FoldedMin(k, NO_OPTIONS, cs, t);
    }
    if SmallestUpper(k, cs, t) || forall c | c in cs :: Upper(k, c).None? {
      FoldedMax(k, NO_OPTIONS, cs, t);
    }
  }

  /** A missing WHERE and a disjunction plan no bounds, whatever the branches say. */
  lemma DisjunctionPlansNothing(k: Clock, where: Option<Expr>)
    requires where.Some? ==> where.value.or.rest != []
    ensures PlanOf(k, where) == ScanOptions(0, 0)
  {
  }

  /** The tenant rewrite hides the caller's clause from the planner. */
  lemma ScopedPlansNothing(k: Clock, orig: Option<Expr>, tenant: string)
    ensures PlanOf(k, Some(Scope.AndTenantFilter(orig, tenant))) == NO_OPTIONS
  {
    var t := Scope.TenantCmp(tenant);
    assert [t][1..] == [];
    assert Applied(k, NO_OPTIONS, t) == NO_OPTIONS;
    assert AppliedAll(k, NO_OPTIONS, []) == NO_OPTIONS;
    assert AppliedAll(k, NO_OPTIONS, [t]) == AppliedAll(k, NO_OPTIONS, []);
  }
}
