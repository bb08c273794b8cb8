/** What a query returns: take-filter-project, and the meaning of tenant scoping. */
module QueryResults {
  import opened Types
  import opened EngineState
  import opened EntryList
  import opened ScanHeap
  import opened Scan
  import opened QueryAst
  import opened Evaluator
  import opened Executor
  import Scope

  const NEVER: nat -> bool := (n: nat) => false

  // ---- LIMIT ------------------------------------------------------------------------------------

  /** The limit check has fired by the time n rows are there: it runs behind the append, so never at n = 0. */
  predicate Reached(limit: int, n: nat) {
    limit >= 0 && n >= 1 && n >= limit
  }

  /** The number of rows a limit lets through: LIMIT 0 acts as LIMIT 1. */
  function Cap(limit: int, n: nat): (c: nat)
    ensures c <= n
  {
    if limit < 0 || n <= limit then n else if limit == 0 then 1 else limit
  }

  ghost predicate Errs(k: Clock, where: Option<Expr>, e: Entry) {
    Eval(k, where, e.id, e.rec).Err?
  }

  /** The matches are the accepted records, each once and in the scan's order. */
  lemma {:induction false} MatchesAre(k: Clock, where: Option<Expr>, es: seq<Entry>)
    ensures forall e :: e in Matches(k, where, es) <==> e in es && Eval(k, where, e.id, e.rec) == Ok(true)
    decreases |es|
  {
    hide Eval;
    if es != [] {
      var n := |es| - 1;
      MatchesAre(k, where, es[..n]);
      assert forall e :: e in es <==> e in es[..n] || e == es[n];
    }
  }

  lemma {:induction false} MatchesAscend(k: Clock, where: Option<Expr>, es: seq<Entry>)
    requires Ascending(es)
    ensures Ascending(Matches(k, where, es))
    decreases |es|
  {
    hide Match;
    if es != [] {
      var n := |es| - 1;
      MatchesAscend(k, where, es[..n]);
      MatchesAre(k, where, es[..n]);
      var ms := Matches(k, where, es[..n]);
      forall i | 0 <= i < |ms| ensures ms[i].id < es[n].id {
        assert ms[i] in es[..n];
      }
    }
  }

  lemma {:induction false} MatchesOfPrefix(k: Clock, where: Option<Expr>, es: seq<Entry>, n: nat)
    requires n <= |es|
    ensures Matches(k, where, es[..n]) <= Matches(k, where, es)
    decreases |es|
  {
    hide Match;
    if n < |es| {
      var m := |es| - 1;
      assert es[..m][..n] == es[..n];
      MatchesOfPrefix(k, where, es[..m], n);
    } else {
      assert es[..n] == es;
    }
  }

  /** How the visitor's run over a listing ends, n quiet records in. */
  lemma {:induction false} RunEnds(k: Clock, where: Option<Expr>, limit: int, full: seq<Entry>, n: nat)
    returns (m: nat)
    requires n <= |full| && !Reached(limit, |Matches(k, where, full[..n])|)
    requires forall i | 0 <= i < n :: !Errs(k, where, full[i])
    ensures var run := RunOver<StopReason>(full, n, Visitor(k, where, limit), NEVER, false);
      && m <= |full| && (forall i | 0 <= i < m :: !Errs(k, where, full[i]))
      && (run == (full, Done) || run == (full[..m], Stopped(LimitReached)) || (run.1.Stopped? && run.1.err.EvalFailed?))
      && (run.1 == Done ==> m == |full| && !Reached(limit, |Matches(k, where, full)|))
      && (run.1 == Stopped(LimitReached) ==> |Matches(k, where, full[..m])| == (if limit == 0 then 1 else limit) && limit >= 0)
      && (run.1.Stopped? && run.1.err.EvalFailed? ==>
            m < |full| && Errs(k, where, full[m]) && !Reached(limit, |Matches(k, where, full[..m])|))
    decreases |full| - n
  {
    hide Eval, Matches;
    if n == |full| {
      assert full[..n] == full;
      m := n;
    } else {
      var next := full[..n + 1];
      assert next == full[..n] + [full[n]];
      MatchesSnoc(k, where, full[..n], full[n]);
      VerdictHere(k, where, limit, full[..n], full[n]);
      if Errs(k, where, full[n]) {
        m := n;
      } else if Reached(limit, |Matches(k, where, next)|) {
        m := n + 1;
      } else {
        m := RunEnds(k, where, limit, full, n + 1);
      }
    }
  }

  lemma VerdictHere(k: Clock, where: Option<Expr>, limit: int, before: seq<Entry>, e: Entry)
    requires !Reached(limit, |Matches(k, where, before)|)
    ensures var v := Visitor(k, where, limit)(before + [e]);
      && (Errs(k, where, e) ==> v.Some? && v.value.EvalFailed?)
      && (!Errs(k, where, e) ==> v == if Reached(limit, |Matches(k, where, before + [e])|) then Some(LimitReached) else None)
  {
    hide Eval, Matches;
    MatchesSnoc(k, where, before, e);
    NoMatches(k, where, before);
  }

  lemma NoMatches(k: Clock, where: Option<Expr>, es: seq<Entry>)
    ensures es == [] ==> Matches(k, where, es) == []
  {
  }

  /**
   Execute is take-filter-project. It answers unless some record's evaluation errs before the limit is reached;
   the answer is the first rows of the matching records in ascending DocID order, and the sentinel stays inside.
   */
  lemma TakeFilterProject(k: Clock, stmt: Statement, full: seq<Entry>)
    ensures var r, limit, ms := Answer(k, stmt, full, NEVER, false), LimitOf(stmt), Matches(k, stmt.where, full);
      && (r.Ok? <==> forall i | 0 <= i < |full| && Errs(k, stmt.where, full[i]) ::
                       Reached(limit, |Matches(k, stmt.where, full[..i])|))
      && (r.Ok? ==> r.value == ms[..Cap(limit, |ms|)])
  {
    hide Eval, Matches, Visitor;
    var limit, where := LimitOf(stmt), stmt.where;
    var ms := Matches(k, where, full);
    assert full[..0] == [];
    NoMatches(k, where, []);
    var m := RunEnds(k, where, limit, full, 0);
    var run := RunOver<StopReason>(full, 0, Visitor(k, where, limit), NEVER, false);
    if run.1 == Stopped(LimitReached) {
      MatchesOfPrefix(k, where, full, m);
      forall i | 0 <= i < |full| && Errs(k, where, full[i]) ensures Reached(limit, |Matches(k, where, full[..i])|) {
        assert full[..i][..m] == full[..m];
        MatchesOfPrefix(k, where, full[..i], m);
      }
    }
  }

  /** LIMIT L returns the first min(L, n) rows exactly when L is at least 1 or nothing matches. */
  lemma LimitIsMin(k: Clock, stmt: Statement, full: seq<Entry>)
    requires stmt.limit.Some? && stmt.limit.value >= 0
    requires forall e | e in full :: !Errs(k, stmt.where, e)
    ensures var r, l, n := Answer(k, stmt, full, NEVER, false), stmt.limit.value, |Matches(k, stmt.where, full)|;
      r.Ok? && (|r.value| == (if l < n then l else n) <==> l >= 1 || n == 0)
  {
    hide Eval, Matches, Answer;
    TakeFilterProject(k, stmt, full);
  }
  // ---- tenant scoping ---------------------------------------------------------------------------

  function OfTenant(tenant: string, es: seq<Entry>): seq<Entry> {
    if es == [] then []
    else
      var rest := OfTenant(tenant, es[..|es| - 1]);
      if es[|es| - 1].rec.tenantID == tenant then rest + [es[|es| - 1]] else rest
  }

  /** A scoped query's rows are exactly the tenant's among the caller's, and it errs where the caller's would. */
  lemma {:induction false} ScopedRows(k: Clock, orig: Option<Expr>, tenant: string, es: seq<Entry>)
    ensures Matches(k, Some(Scope.AndTenantFilter(orig, tenant)), es) == OfTenant(tenant, Matches(k, orig, es))
    ensures forall e :: Errs(k, Some(Scope.AndTenantFilter(orig, tenant)), e) <==> Errs(k, orig, e)
    decreases |es|
  {
    var scoped := Some(Scope.AndTenantFilter(orig, tenant));
    forall e ensures Errs(k, scoped, e) <==> Errs(k, orig, e) {
      Scope.TenantFilterMeans(k, orig, tenant, e.id, e.rec);
    }
    if es != [] {
      var n := |es| - 1;
      ScopedRows(k, orig, tenant, es[..n]);
      Scope.TenantFilterMeans(k, orig, tenant, es[n].id, es[n].rec);
      var ms := Matches(k, orig, es[..n]);
      assert (ms + [es[n]])[..|ms|] == ms;
    }
  }
}
