/** What pushdown does to an answer: exactly when a statement's bounds cannot be noticed. */
module Pushdown {
  import opened Types
  import opened EntryList
  import opened EngineState
  import opened MergeSpec
  import opened ScanHeap
  import opened Scan
  import opened QueryAst
  import opened Evaluator
  import opened Executor
  import opened Planner
  import opened QueryResults

  // ---- sources ----------------------------------------------------------------------------------

  /** Copies of one DocID carry the same record wherever they lie. */
  ghost predicate CopiesAgree(srcs: seq<seq<Entry>>) {
    forall i, j, e, f | 0 <= i < |srcs| && 0 <= j < |srcs| && e in srcs[i] && f in srcs[j] && e.id == f.id :: e == f
  }

  /** The meta range of every SSTable bounds its records' timestamps. */
  ghost predicate RangesExact(sources: seq<ScanSource>) {
    forall i, e | 0 <= i < |sources| && sources[i].File? && e in sources[i].src.items ::
      sources[i].minTS <= e.rec.timestamp <= sources[i].maxTS
  }

  ghost predicate ErrorFree(sources: seq<ScanSource>) {
    forall i | 0 <= i < |sources| :: sources[i].src.err.None?
  }

  lemma {:induction false} OverlayEntry(srcs: seq<seq<Entry>>, d: DocID)
    requires AllAscending(srcs) && d in Overlay(MapsOf(srcs))
    ensures exists i :: 0 <= i < |srcs| && Entry(d, Overlay(MapsOf(srcs))[d]) in srcs[i]
    decreases |srcs|
  {
    if srcs != [] {
      assert MapsOf(srcs)[1..] == MapsOf(srcs[1..]);
      ToMapRepresented(srcs[0]);
      if d in ToMap(srcs[0]) {
        var j := PositionOf(srcs[0], d);
        assert srcs[0][j] == Entry(d, ToMap(srcs[0])[d]);
      } else {
        OverlayEntry(srcs[1..], d);
        var i :| 0 <= i < |srcs[1..]| && Entry(d, Overlay(MapsOf(srcs[1..]))[d]) in srcs[1..][i];
        assert srcs[i + 1] == srcs[1..][i];
      }
    }
  }

  lemma {:induction false} InOverlay(srcs: seq<seq<Entry>>, i: nat, e: Entry)
    requires AllAscending(srcs) && i < |srcs| && e in srcs[i]
    ensures e.id in Overlay(MapsOf(srcs))
    decreases |srcs|
  {
    assert MapsOf(srcs)[1..] == MapsOf(srcs[1..]);
    ToMapRepresented(srcs[0]);
    if i > 0 {
      assert srcs[1..][i - 1] == srcs[i];
      InOverlay(srcs[1..], i - 1, e);
    }
  }

  /** With agreeing copies, dropping sources drops DocIDs but never changes the record of one that stays. */
  lemma FewerSources(all: seq<seq<Entry>>, some: seq<seq<Entry>>, d: DocID)
    requires AllAscending(all) && AllAscending(some) && CopiesAgree(all) && |all| == |some|
    requires forall i | 0 <= i < |all| :: some[i] == all[i] || some[i] == []
    requires d in Overlay(MapsOf(some))
    ensures d in Overlay(MapsOf(all)) && Overlay(MapsOf(all))[d] == Overlay(MapsOf(some))[d]
  {
    hide Overlay, MapsOf;
    OverlayEntry(some, d);
    var i :| 0 <= i < |some| && Entry(d, Overlay(MapsOf(some))[d]) in some[i];
    var e := Entry(d, Overlay(MapsOf(some))[d]);
    InOverlay(all, i, e);
    OverlayEntry(all, d);
    var j :| 0 <= j < |all| && Entry(d, Overlay(MapsOf(all))[d]) in all[j];
    assert e in all[i];
  }

  lemma VisibleSubset(sources: seq<ScanSource>, o: ScanOptions)
    requires SourcesAscend(sources)
    ensures var all, some := Visible(sources, NO_OPTIONS), Visible(sources, o);
      && AllAscending(all) && AllAscending(some)
      && forall i | 0 <= i < |sources| ::
        all[i] == sources[i].src.items && some[i] == (if Prune(o, sources[i]) then [] else all[i])
  {
    VisibleAscend(sources, o);
    VisibleAscend(sources, NO_OPTIONS);
  }

  lemma NoneReported(sources: seq<ScanSource>, o: ScanOptions)
    requires ErrorFree(sources)
    ensures !Reported(sources, o)
  {
  }

  // ---- an answer depends on its loud records alone ----------------------------------------------

  /** A record the WHERE does not quietly reject. */
  predicate Loud(k: Clock, where: Option<Expr>, e: Entry) {
    Eval(k, where, e.id, e.rec) != Ok(false)
  }

  function LoudOf(k: Clock, where: Option<Expr>, es: seq<Entry>): seq<Entry> {
    if es == [] then []
    else
      var rest := LoudOf(k, where, es[..|es| - 1]);
      if Loud(k, where, es[|es| - 1]) then rest + [es[|es| - 1]] else rest
  }

  lemma {:induction false} LoudCons(k: Clock, where: Option<Expr>, e: Entry, es: seq<Entry>)
    ensures LoudOf(k, where, [e] + es) == (if Loud(k, where, e) then [e] else []) + LoudOf(k, where, es)
    decreases |es|
  {
    hide Loud;
    var all := [e] + es;
    if es == [] {
      assert all[..0] == [] && all == [e];
    } else {
      var n := |es| - 1;
      assert all[..|all| - 1] == [e] + es[..n];
      LoudCons(k, where, e, es[..n]);
    }
  }

  lemma {:induction false} MatchesOfLoud(k: Clock, where: Option<Expr>, es: seq<Entry>)
    ensures Matches(k, where, LoudOf(k, where, es)) == Matches(k, where, es)
    decreases |es|
  {
    hide Eval;
    if es != [] {
      var n := |es| - 1;
      MatchesOfLoud(k, where, es[..n]);
      MatchesSnoc(k, where, LoudOf(k, where, es[..n]), es[n]);
    }
  }

  /** How a query runs over the records to come when n rows are there: the number of rows in the end, or the error. */
  function Rows(k: Clock, where: Option<Expr>, limit: int, es: seq<Entry>, n: nat): Result<nat, EvalError>
    decreases |es|
  {
    if es == [] then Ok(n)
    else
      match Eval(k, where, es[0].id, es[0].rec)
      case Err(x) => Err(x)
      case Ok(m) =>
        var n' := if m then n + 1 else n;
        if m && limit >= 0 && n' >= limit then Ok(n') else Rows(k, where, limit, es[1..], n')
  }

  /** The first record decides what is left to do. */
  lemma RowsCons(k: Clock, where: Option<Expr>, limit: int, e: Entry, rest: seq<Entry>, n: nat)
    ensures Rows(k, where, limit, [e] + rest, n) ==
      match Eval(k, where, e.id, e.rec)
      case Err(x) => Err(x)
      case Ok(m) => if m && limit >= 0 && n + 1 >= limit then Ok(n + 1)
                    else Rows(k, where, limit, rest, if m then n + 1 else n)
  {
    hide Eval;
    assert ([e] + rest)[1..] == rest;
  }

  lemma {:induction false} RowsOfLoud(k: Clock, where: Option<Expr>, limit: int, es: seq<Entry>, n: nat)
    ensures Rows(k, where, limit, LoudOf(k, where, es), n) == Rows(k, where, limit, es, n)
    decreases |es|
  {
    hide Eval, Rows;
    if es != [] {
      var e, rest := es[0], es[1..];
      assert es == [e] + rest;
      LoudCons(k, where, e, rest);
      RowsCons(k, where, limit, e, rest, n);
      RowsCons(k, where, limit, e, LoudOf(k, where, rest), n);
      assert [] + LoudOf(k, where, rest) == LoudOf(k, where, rest);
      RowsOfLoud(k, where, limit, rest, n);
      RowsOfLoud(k, where, limit, rest, n + 1);
    }
  }

  function Answered(k: Clock, where: Option<Expr>, limit: int, es: seq<Entry>): Result<seq<Entry>, ExecError> {
    match Rows(k, where, limit, es, 0)
    case Err(x) => Err(Evaluation(x))
    case Ok(n) => var ms := Matches(k, where, es); Ok(if n <= |ms| then ms[..n] else ms)
  }

  lemma VerdictAt(k: Clock, where: Option<Expr>, limit: int, before: seq<Entry>, e: Entry)
    ensures Visitor(k, where, limit)(before + [e]) ==
      match Eval(k, where, e.id, e.rec)
      case Err(x) => Some(EvalFailed(x))
      case Ok(m) => if m && limit >= 0 && |Matches(k, where, before)| + 1 >= limit then Some(LimitReached) else None
    ensures |Matches(k, where, before + [e])| == |Matches(k, where, before)| + if Match(k, where, e) then 1 else 0
  {
    hide Eval, Matches;
    MatchesSnoc(k, where, before, e);
  }

  lemma {:induction false} RunIsRows(k: Clock, where: Option<Expr>, limit: int, full: seq<Entry>, n: nat)
    requires n <= |full|
    ensures var run := RunOver<StopReason>(full, n, Visitor(k, where, limit), NEVER, false);
      match Rows(k, where, limit, full[n..], |Matches(k, where, full[..n])|)
      case Err(x) => run.1 == Stopped(EvalFailed(x))
      case Ok(c) => (run.1 == Done || run.1 == Stopped(LimitReached)) && Matches(k, where, run.0) <= Matches(k, where, full)
                    && |Matches(k, where, run.0)| == c
    decreases |full| - n
  {
    hide Eval, Matches, Visitor, Rows;
    if n == |full| {
      assert full[..n] == full && full[n..] == [];
      NoRows(k, where, limit, |Matches(k, where, full)|);
    } else {
      var e, next := full[n], full[..n + 1];
      assert next == full[..n] + [e] && full[n..] == [e] + full[n + 1..];
      VerdictAt(k, where, limit, full[..n], e);
      RowsCons(k, where, limit, e, full[n + 1..], |Matches(k, where, full[..n])|);
      MatchesOfPrefix(k, where, full, n + 1);
      RunIsRows(k, where, limit, full, n + 1);
    }
  }

  lemma NoRows(k: Clock, where: Option<Expr>, limit: int, n: nat)
    ensures Rows(k, where, limit, [], n) == Ok(n)
  {
  }

  lemma AnswerIs(k: Clock, stmt: Statement, full: seq<Entry>)
    ensures Answer(k, stmt, full, NEVER, false) == Answered(k, stmt.where, LimitOf(stmt), full)
  {
    hide Eval, Matches, Visitor, Rows, RunOver;
    RunIsRows(k, stmt.where, LimitOf(stmt), full, 0);
    assert full[..0] == [] && full[0..] == full;
    NoMatches(k, stmt.where, []);
    var run := RunOver<StopReason>(full, 0, Visitor(k, stmt.where, LimitOf(stmt)), NEVER, false);
    var p, ms := Matches(k, stmt.where, run.0), Matches(k, stmt.where, full);
    assert p <= ms ==> ms[..|p|] == p;
  }

  /** Two listings with the same loud records give the same answer, errors included. */
  lemma LoudDecides(k: Clock, stmt: Statement, a: seq<Entry>, b: seq<Entry>)
    requires LoudOf(k, stmt.where, a) == LoudOf(k, stmt.where, b)
    ensures Answer(k, stmt, a, NEVER, false) == Answer(k, stmt, b, NEVER, false)
  {
    hide Answer, Matches, LoudOf, Rows;
    AnswerIs(k, stmt, a);
    AnswerIs(k, stmt, b);
    MatchesOfLoud(k, stmt.where, a);
    MatchesOfLoud(k, stmt.where, b);
    RowsOfLoud(k, stmt.where, LimitOf(stmt), a, 0);
    RowsOfLoud(k, stmt.where, LimitOf(stmt), b, 0);
  }

  // ---- the loud part of a map -------------------------------------------------------------------

  ghost function LoudPart(k: Clock, where: Option<Expr>, m: map<DocID, LogRecord>): map<DocID, LogRecord> {
    map d | d in m && Loud(k, where, Entry(d, m[d])) :: m[d]
  }

  lemma {:induction false} LoudAreFrom(k: Clock, where: Option<Expr>, es: seq<Entry>)
    ensures forall e | e in LoudOf(k, where, es) :: e in es
    decreases |es|
  {
    hide Loud;
    if es != [] {
      LoudAreFrom(k, where, es[..|es| - 1]);
    }
  }

  /** The loud records of a listing list the loud part of its map. */
  lemma {:induction false} LoudRepresents(k: Clock, where: Option<Expr>, es: seq<Entry>, m: map<DocID, LogRecord>)
    requires Represents(es, m)
    ensures Represents(LoudOf(k, where, es), LoudPart(k, where, m))
    decreases |es|
  {
    if es == [] {
      assert forall d | d in m :: HasID(es, d);
    } else {
      hide Loud, Represents, LoudPart;
      var n := |es| - 1;
      var e, m' := es[n], m - {es[n].id};
      DropLast(es, m);
      LoudRepresents(k, where, es[..n], m');
      LoudAreFrom(k, where, es[..n]);
      LastEntry(es, m);
      LoudWithout(k, where, m, e);
      if Loud(k, where, e) {
        AddLast(LoudOf(k, where, es[..n]), LoudPart(k, where, m'), e);
      }
    }
  }

  lemma LoudWithout(k: Clock, where: Option<Expr>, m: map<DocID, LogRecord>, e: Entry)
    requires e.id in m && m[e.id] == e.rec
    ensures var rest := LoudPart(k, where, m - {e.id});
      LoudPart(k, where, m) == if Loud(k, where, e) then rest[e.id := e.rec] else rest
  {
    hide Loud;
    assert e == Entry(e.id, m[e.id]);
  }

  lemma LastEntry(es: seq<Entry>, m: map<DocID, LogRecord>)
    requires Represents(es, m) && es != []
    ensures var e := es[|es| - 1];
      e.id in m && m[e.id] == e.rec && e == Entry(e.id, m[e.id]) && forall x | x in es[..|es| - 1] :: x.id < e.id
  {
  }

  // ---- pushdown ---------------------------------------------------------------------------------

  /** A record in a pruned source is outside the planned bounds, so the WHERE does not accept it. */
  lemma PrunedIsQuiet(k: Clock, where: Option<Expr>, sources: seq<ScanSource>, i: nat, e: Entry)
    requires RangesExact(sources) && i < |sources| && e in sources[i].src.items && Prune(PlanOf(k, where), sources[i])
    requires !Within(PlanOf(k, where), e.rec.timestamp) ==> !Errs(k, where, e)
    ensures !Loud(k, where, e)
  {
    hide PlanOf, Eval;
    assert sources[i].minTS <= e.rec.timestamp <= sources[i].maxTS;
    assert !Within(PlanOf(k, where), e.rec.timestamp);
    assert !Match(k, where, e) by {
      if Match(k, where, e) {
        PlanIsImplied(k, where, e.id, e.rec);
      }
    }
    var v := Eval(k, where, e.id, e.rec);
    assert v.Ok?;
    assert !v.value;
    assert v == Ok(false);
  }

  lemma SameLoud(k: Clock, where: Option<Expr>, m: map<DocID, LogRecord>, n: map<DocID, LogRecord>)
    requires forall d | d in n :: d in m && m[d] == n[d]
    requires forall d | d in m && Loud(k, where, Entry(d, m[d])) :: d in n
    ensures LoudPart(k, where, n) == LoudPart(k, where, m)
  {
    hide Loud;
  }

  lemma PushdownKeepsLoud(k: Clock, where: Option<Expr>, sources: seq<ScanSource>)
    requires SourcesAscend(sources) && RangesExact(sources) && CopiesAgree(Visible(sources, NO_OPTIONS))
    requires forall e | e in Merged(sources, NO_OPTIONS) && !Within(PlanOf(k, where), e.rec.timestamp) :: !Errs(k, where, e)
    ensures var m, n := Overlay(MapsOf(Visible(sources, NO_OPTIONS))), Overlay(MapsOf(Visible(sources, PlanOf(k, where))));
      LoudPart(k, where, n) == LoudPart(k, where, m)
  {
    hide Overlay, MapsOf, Loud, Errs, PlanOf, LoudPart, RangesExact, CopiesAgree, Prune, Within, Listing;
    var all, some := Visible(sources, NO_OPTIONS), Visible(sources, PlanOf(k, where));
    var m, n := Overlay(MapsOf(all)), Overlay(MapsOf(some));
    VisibleSubset(sources, PlanOf(k, where));
    forall d | d in n ensures d in m && m[d] == n[d] {
      FewerSources(all, some, d);
    }
    forall d | d in m && Loud(k, where, Entry(d, m[d])) ensures d in n {
      OverlayEntry(all, d);
      var i :| 0 <= i < |all| && Entry(d, m[d]) in all[i];
      InListing(m, d);
      if Prune(PlanOf(k, where), sources[i]) {
        PrunedIsQuiet(k, where, sources, i, Entry(d, m[d]));
      }
      InOverlay(some, i, Entry(d, m[d]));
    }
    SameLoud(k, where, m, n);
  }

  lemma InListing(m: map<DocID, LogRecord>, d: DocID)
    requires d in m
    ensures Entry(d, m[d]) in Listing(m)
  {
    var j := PositionOf(Listing(m), d);
    assert Listing(m)[j] == Entry(d, m[d]);
  }

  /** A query under its planned bounds answers what it answers without any, errors included. */
  ghost predicate SameAnswer(k: Clock, stmt: Statement, sources: seq<ScanSource>) {
    var o := PlanOf(k, stmt.where);
    Answer(k, stmt, Merged(sources, o), NEVER, Reported(sources, o))
    == Answer(k, stmt, Merged(sources, NO_OPTIONS), NEVER, Reported(sources, NO_OPTIONS))
  }

  /** What the engine guarantees of the sources of a scan. */
  ghost predicate Sound(sources: seq<ScanSource>) {
    && SourcesAscend(sources) && RangesExact(sources) && ErrorFree(sources)
    && CopiesAgree(Visible(sources, NO_OPTIONS))
  }

  /**
   Pushdown preserves meaning: the planned bounds do not change the answer when no record outside them errs. What errs
   inside them errs either way.
   */
  lemma PushdownPreservesAnswer(k: Clock, stmt: Statement, sources: seq<ScanSource>)
    requires Sound(sources)
    requires forall e | e in Merged(sources, NO_OPTIONS) && !Within(PlanOf(k, stmt.where), e.rec.timestamp) ::
               !Errs(k, stmt.where, e)
    ensures SameAnswer(k, stmt, sources)
  {
    hide Overlay, MapsOf, Answer, PlanOf, Listing, Visible, Errs, Within, LoudPart, LoudOf, Represents, CopiesAgree,
         SourcesAscend, RangesExact, ErrorFree, Reported;
    var o := PlanOf(k, stmt.where);
    var m, n := Overlay(MapsOf(Visible(sources, NO_OPTIONS))), Overlay(MapsOf(Visible(sources, o)));
    PushdownKeepsLoud(k, stmt.where, sources);
    LoudRepresents(k, stmt.where, Listing(m), m);
    LoudRepresents(k, stmt.where, Listing(n), n);
    AscendingUnique(LoudOf(k, stmt.where, Listing(m)), LoudOf(k, stmt.where, Listing(n)), LoudPart(k, stmt.where, m));
    NoneReported(sources, o);
    NoneReported(sources, NO_OPTIONS);
    LoudDecides(k, stmt, Listing(m), Listing(n));
  }

  /** No record outside the planned bounds makes the WHERE err. */
  ghost predicate QuietOutside(k: Clock, where: Option<Expr>) {
    forall e: Entry | !Within(PlanOf(k, where), e.rec.timestamp) :: !Errs(k, where, e)
  }

  // ---- where pushdown would change the answer ---------------------------------------------------

  function TsRecord(ts: Timestamp): LogRecord {
    LogRecord(ts, "t", "s", "m", map[])
  }

  function TsAtLeast(ts: Timestamp): CmpExpr {
    Leaf(Compare(FieldRef("ts", ""), ">=", Literal(None, Some(ts))))
  }

  function Where(a: AndExpr): Statement {
    Statement(SelectClause(true, []), Some(Expr(OrExpr(a, []))), None)
  }

  function OneFile(e: Entry): ScanSource {
    File(Source([e], None), e.rec.timestamp, e.rec.timestamp)
  }

  lemma ToMapOne(e: Entry)
    ensures ToMap([e]) == map[e.id := e.rec] && Represents([e], map[e.id := e.rec]) && Represents([], map[])
  {
    assert [e][..0] == [] && ToMap([e]) == ToMap([])[e.id := e.rec];
    assert [e][0].id == e.id;
  }

  lemma EmptyMap()
    ensures ToMap([]) == map[]
  {
  }

  lemma MergedOne(e: Entry, o: ScanOptions)
    ensures Merged([OneFile(e)], o) == if Prune(o, OneFile(e)) then [] else [e]
    ensures !Reported([OneFile(e)], o)
  {
    hide ToMap, Overlay, Represents, Prune;
    var vis := Visible([OneFile(e)], o);
    var items := if Prune(o, OneFile(e)) then [] else [e];
    assert MapsOf(vis) == [ToMap(items)];
    OverlayLast(ToMap(items));
    ToMapOne(e);
    EmptyMap();
    ListingIs(items, ToMap(items));
  }

  lemma OverlayLast(layer: map<DocID, LogRecord>)
    ensures Overlay([layer]) == layer
  {
    var last: seq<map<DocID, LogRecord>> := [layer];
    assert last[1..] == [];
  }

  /** A record that errs outside the bounds, alone in an SSTable: pruned it goes unnoticed, read it fails the query. */
  lemma LoudOutside(k: Clock, stmt: Statement, e: Entry)
    requires !Within(PlanOf(k, stmt.where), e.rec.timestamp) && Errs(k, stmt.where, e)
    ensures Sound([OneFile(e)]) && !SameAnswer(k, stmt, [OneFile(e)])
  {
    hide Answer, Merged, Reported, RunOver, Matches, Eval, PlanOf;
    var o := PlanOf(k, stmt.where);
    OneFileIsSound(e);
    MergedOne(e, NO_OPTIONS);
    MergedOne(e, o);
    assert [e][0] == e && [e][..0] == [];
    NoMatches(k, stmt.where, []);
    TakeFilterProject(k, stmt, [e]);
    TakeFilterProject(k, stmt, []);
  }

  lemma OneFileIsSound(e: Entry)
    ensures Sound([OneFile(e)])
  {
    hide Prune;
    var sources := [OneFile(e)];
    assert sources[0].src.items == [e];
    assert forall i, x | 0 <= i < |sources| && x in sources[i].src.items :: x == e;
    assert forall i, x | 0 <= i < 1 && x in Visible(sources, NO_OPTIONS)[i] :: x == e;
  }

  /**
   Exactly which statements pushdown cannot change: those whose WHERE errs on no record outside its own bounds. For any
   other statement one SSTable with one record is enough to tell.
   */
  lemma PushdownUnnoticedIff(k: Clock, stmt: Statement)
    ensures (forall sources | Sound(sources) :: SameAnswer(k, stmt, sources)) <==> QuietOutside(k, stmt.where)
  {
    hide Sound, SameAnswer, Errs, Within, PlanOf, Merged;
    if QuietOutside(k, stmt.where) {
      forall sources | Sound(sources) ensures SameAnswer(k, stmt, sources) {
        PushdownPreservesAnswer(k, stmt, sources);
      }
    } else {
      var e: Entry :| !Within(PlanOf(k, stmt.where), e.rec.timestamp) && Errs(k, stmt.where, e);
      LoudOutside(k, stmt, e);
    }
  }

  /**
   Without the proviso on evaluation errors: an ordered test on message in front of ts >= 10 errs on every record,
   but the bound prunes the one SSTable and the query quietly answers nothing.
   */
  lemma PushdownHidesErrors(k: Clock)
    ensures var bad := Leaf(Compare(FieldRef("message", ""), "<", Literal(Some("x"), None)));
      var stmt, sources := Where(AndExpr(bad, [TsAtLeast(10)])), [OneFile(Entry(1, TsRecord(5)))];
      var o := PlanOf(k, stmt.where);
      && Answer(k, stmt, Merged(sources, NO_OPTIONS), NEVER, Reported(sources, NO_OPTIONS)).Err?
      && Answer(k, stmt, Merged(sources, o), NEVER, Reported(sources, o)) == Ok([])
  {
    hide Answer, Merged, Reported, RunOver;
    var bad := Leaf(Compare(FieldRef("message", ""), "<", Literal(Some("x"), None)));
    var a := AndExpr(bad, [TsAtLeast(10)]);
    var e := Entry(1, TsRecord(5));
    var stmt := Where(a);
    PlanOfPair(k, bad, 10);
    MergedOne(e, NO_OPTIONS);
    MergedOne(e, PlanOf(k, stmt.where));
    assert EvalCmp(k, bad, e.id, e.rec) == Err(NotOrdered);
    assert EvalAnd(k, a, e.id, e.rec) == Err(NotOrdered);
    assert Errs(k, stmt.where, e);
    TakeFilterProject(k, stmt, [e]);
    assert [e][0] == e && [e][..0] == [];
    TakeFilterProject(k, stmt, []);
  }

  lemma PlanOfPair(k: Clock, bad: CmpExpr, ts: Timestamp)
    requires ts != 0 && bad.Leaf? && bad.cmp.field.name != "ts"
    ensures PlanOf(k, Where(AndExpr(bad, [TsAtLeast(ts)])).where) == ScanOptions(ts, 0)
  {
    var t := TsAtLeast(ts);
    assert Applied(k, NO_OPTIONS, bad) == NO_OPTIONS;
    assert [t][1..] == [];
    assert AppliedAll(k, ScanOptions(ts, 0), []) == ScanOptions(ts, 0);
    assert AppliedAll(k, NO_OPTIONS, [t]) == AppliedAll(k, Applied(k, NO_OPTIONS, t), []);
  }

  lemma OverlayTwo(la: map<DocID, LogRecord>, lb: map<DocID, LogRecord>)
    ensures Overlay([la, lb]) == lb + la
  {
    var last: seq<map<DocID, LogRecord>> := [lb];
    assert [la, lb][1..] == last && last[1..] == [];
    assert Overlay(last) == Overlay([]) + lb;
  }

  lemma MergedTwo(a: Entry, b: Entry, o: ScanOptions)
    requires a.id == b.id
    ensures var m := Merged([OneFile(a), OneFile(b)], o);
      m == if !Prune(o, OneFile(a)) then [a] else if !Prune(o, OneFile(b)) then [b] else []
    ensures !Reported([OneFile(a), OneFile(b)], o)
  {
    hide ToMap, Overlay, Represents, Prune;
    var vis := Visible([OneFile(a), OneFile(b)], o);
    var la, lb := MapsOf(vis)[0], MapsOf(vis)[1];
    assert MapsOf(vis) == [la, lb];
    OverlayTwo(la, lb);
    ToMapOne(a);
    ToMapOne(b);
    EmptyMap();
    ListingIs(if !Prune(o, OneFile(a)) then [a] else if !Prune(o, OneFile(b)) then [b] else [], lb + la);
  }

  /**
   Without the proviso on copies: the newest copy of a DocID fails ts >= 10, but the bound prunes exactly the
   SSTable that holds it, and an older copy that passes shows through.
   */
  lemma PushdownNeedsAgreeingCopies(k: Clock)
    ensures var stmt := Where(AndExpr(TsAtLeast(10), []));
      var sources := [OneFile(Entry(1, TsRecord(5))), OneFile(Entry(1, TsRecord(20)))];
      var o := PlanOf(k, stmt.where);
      && Answer(k, stmt, Merged(sources, NO_OPTIONS), NEVER, Reported(sources, NO_OPTIONS)) == Ok([])
      && Answer(k, stmt, Merged(sources, o), NEVER, Reported(sources, o)) == Ok([Entry(1, TsRecord(20))])
  {
    hide Answer, Merged, Reported, RunOver, Matches, Eval;
    var a := AndExpr(TsAtLeast(10), []);
    var stmt := Where(a);
    var e, f := Entry(1, TsRecord(5)), Entry(1, TsRecord(20));
    assert Applied(k, NO_OPTIONS, TsAtLeast(10)) == ScanOptions(10, 0);
    assert AppliedAll(k, ScanOptions(10, 0), []) == ScanOptions(10, 0);
    assert PlanOf(k, stmt.where) == ScanOptions(10, 0);
    MergedTwo(e, f, NO_OPTIONS);
    MergedTwo(e, f, ScanOptions(10, 0));
    TsMatch(k, 10, e);
    TsMatch(k, 10, f);
    MatchesOne(k, stmt.where, e);
    MatchesOne(k, stmt.where, f);
    assert [f][..1] == [f];
    TakeFilterProject(k, stmt, [e]);
    TakeFilterProject(k, stmt, [f]);
  }

  lemma MatchesOne(k: Clock, where: Option<Expr>, e: Entry)
    ensures Matches(k, where, [e]) == if Match(k, where, e) then [e] else []
  {
    hide Match;
    assert [e][..0] == [] && Matches(k, where, []) == [];
  }

  lemma TsMatch(k: Clock, ts: Timestamp, e: Entry)
    ensures Eval(k, Where(AndExpr(TsAtLeast(ts), [])).where, e.id, e.rec) == Ok(e.rec.timestamp >= ts)
  {
    hide EvalCompare;
    var t := TsAtLeast(ts);
    NumericCompare(k, t.cmp, ts, e.id, e.rec);
    assert EvalAll(k, [], e.id, e.rec) == Ok(true) && EvalAny(k, [], e.id, e.rec) == Ok(false);
    assert EvalAnd(k, AndExpr(t, []), e.id, e.rec) == EvalCmp(k, t, e.id, e.rec);
  }
}
