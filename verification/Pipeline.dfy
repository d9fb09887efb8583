/** The whole path from validation to publication: what any interleaving of validations,
    re-validations, comparisons and promotions can put before readers of the analytics schema. */
module Pipeline {
  import opened Models
  import Canonical
  import Framing
  import opened Gate
  import GateTheorems
  import W = Snowflake
  import P = SnowflakePromotion
  import S = SnowflakeSafety
  import T = SnowflakeTheorems
  import D = DuckDb
  import DP = DuckDbPromotion
  import DT = DuckDbTheorems
  import R = PublicationRefinement

  // `schemas` are those a DuckDB database has before anything is published.
  datatype Setup = Setup(lib: Canonical.Library, entities: seq<EntityRule>, config: PublicationConfig,
                         schemas: set<string>)

  /** What can happen. `lives` is how many steps the connection survives; a promotion reads
      its report from a file, which may hold anything. */
  datatype Event =
    | Validate(ctx: Context, readers: Readers, lives: nat)
    | Compare(ctx: Context, targets: seq<Readers>)     // writes its own reports, and no audit row
    | Promote(ctx: Context, report: ValidationReport, at: int, lives: nat)
    | CloseConnection

  // ValidationService.validate's report
  function ReportOf(setup: Setup, e: Event): ValidationReport
    requires e.Validate?
  {
    Report(e.ctx, AllChecks(setup.lib, setup.entities, e.readers))
  }

  // ---- Snowflake -------------------------------------------------------------------------------

  function Next(setup: Setup, w: W.Warehouse, e: Event): W.Warehouse {
    match e
    case Validate(_, _, lives) => W.Exec(w, lives, P.AuditStatements(ReportOf(setup, e))).w
    case Compare(_, _) => w
    case Promote(ctx, report, _, lives) => P.Promotion(setup.config, w, lives, ctx, report).w
    case CloseConnection => W.Disconnect(w)
  }

  function Run(setup: Setup, events: seq<Event>): W.Warehouse {
    if events == [] then S.FRESH
    else Next(setup, Run(setup, events[..|events| - 1]), events[|events| - 1])
  }

  // The events as the publication machine sees them.
  function Trace(setup: Setup, events: seq<Event>): seq<S.Event> {
    if events == [] then [] else Trace(setup, events[..|events| - 1]) + Seen(setup, events[|events| - 1])
  }

  function Seen(setup: Setup, e: Event): seq<S.Event> {
    match e
    case Validate(_, _, lives) => [S.Record(ReportOf(setup, e), lives)]
    case Compare(_, _) => []
    case Promote(ctx, report, _, lives) => [S.Promote(ctx, report, lives)]
    case CloseConnection => [S.CloseConnection]
  }

  lemma TracedStep(setup: Setup, w: W.Warehouse, before: seq<S.Event>, e: Event)
    requires w == S.RunAll(setup.config, before)
    ensures Next(setup, w, e) == S.RunAll(setup.config, before + Seen(setup, e))
  {
    var more := Seen(setup, e);
    if more == [] { assert before + more == before; } else { assert (before + more)[..|before|] == before; }
  }

  lemma {:induction false} RunIsTraced(setup: Setup, events: seq<Event>)
    ensures Run(setup, events) == S.RunAll(setup.config, Trace(setup, events))
  {
    if events != [] {
      var n := |events| - 1;
      RunIsTraced(setup, events[..n]);
      TracedStep(setup, Run(setup, events[..n]), Trace(setup, events[..n]), events[n]);
    }
  }

  // A validation of the run at its batch, with every check passed.
  ghost predicate PassedValidation(setup: Setup, e: Event, ctx: Context) {
    e.Validate? && ReportOf(setup, e).passed && e.ctx.runId == ctx.runId && e.ctx.batch == ctx.batch
  }

  ghost predicate WasValidated(setup: Setup, events: seq<Event>, ctx: Context) {
    exists e :: e in events && PassedValidation(setup, e, ctx)
  }

  // Every publication event comes from an event of the pipeline.
  lemma {:induction false} TraceComesFrom(setup: Setup, events: seq<Event>, s: S.Event) returns (e: Event)
    requires s in Trace(setup, events)
    ensures e in events && s in Seen(setup, e)
  {
    var front, last := events[..|events| - 1], events[|events| - 1];
    assert events == front + [last];
    if s in Seen(setup, last) { e := last; } else { e := TraceComesFrom(setup, front, s); }
  }

  lemma RecordedWasValidated(setup: Setup, events: seq<Event>, ctx: Context)
    requires ctx in S.Recorded(Trace(setup, events))
    ensures WasValidated(setup, events, ctx)
  {
    var s :| s in Trace(setup, events) && s.Record? && s.report.passed && s.report.batch >= 1
             && Context(s.report.runId, s.report.batch) == ctx;
    var e := TraceComesFrom(setup, events, s);
    assert PassedValidation(setup, e, ctx);
  }

  // A passed validation of the run found every entity reconciled.
  ghost predicate Vouched(setup: Setup, events: seq<Event>, ctx: Context) {
    exists e :: e in events && PassedValidation(setup, e, ctx)
                && forall rule :: rule in setup.entities ==> GateTheorems.EntityReconciled(setup.lib, rule, e.readers)
  }

  lemma ValidatedIsVouched(setup: Setup, events: seq<Event>, ctx: Context, e: Event)
    requires Framing.Faithful(setup.lib) && forall rule :: rule in setup.entities ==> rule.columns != []
    requires e in events && PassedValidation(setup, e, ctx)
    ensures Vouched(setup, events, ctx)
  {
    GateTheorems.GateIsSound(setup.lib, e.ctx, setup.entities, e.readers);
  }

  /** Fail closed, on Snowflake: whatever happened, in any interleaving and with any crash,
      the live schema is absent, empty, or all the views of one run at one batch that an
      earlier validation found reconciled, entity by entity. */
  lemma LiveIsVouchedOnSnowflake(setup: Setup, events: seq<Event>)
    requires Framing.Faithful(setup.lib) && forall rule :: rule in setup.entities ==> rule.columns != []
    ensures var live := Run(setup, events).analytics;
            || live == None || live == Some(map[])
            || exists ctx :: live == Some(S.ViewSet(setup.config, ctx)) && Vouched(setup, events, ctx)
  {
    RunIsTraced(setup, events);
    T.CrashSafety(setup.config, Trace(setup, events));
    var w := Run(setup, events);
    if w.analytics.Some? && w.analytics != Some(map[]) {
      var ctx: Context :| ctx in S.Recorded(Trace(setup, events)) && w.analytics == Some(S.ViewSet(setup.config, ctx));
      RecordedWasValidated(setup, events, ctx);
      var e :| e in events && PassedValidation(setup, e, ctx);
      ValidatedIsVouched(setup, events, ctx, e);
    }
  }

  // ---- revoking ------------------------------------------------------------------------------------

  // No connection, present or future, reads the run as passed at its batch.
  ghost predicate Revoked(w: W.Warehouse, ctx: Context) {
    !Authorised(w.durable.validations, ctx) && !Authorised(w.session.validations, ctx)
  }

  lemma {:induction false} ExecKeepsRevoked(w: W.Warehouse, left: nat, ss: seq<W.Statement>, ctx: Context)
    requires Revoked(w, ctx)
    requires forall s :: s in ss && s.MergeAudit? ==> s.row != AuditRow(ctx.runId, ctx.batch, true)
    ensures Revoked(W.Exec(w, left, ss).w, ctx)
    decreases |ss|
  {
    if ss != [] {
      if ss[0].MergeAudit? { UpsertThenRead(w.session.validations, ss[0].row, ctx.runId); }
      var p := W.Step(w, left, ss[0]);
      if p.done { ExecKeepsRevoked(p.w, p.left, ss[1..], ctx); }
    }
  }

  lemma NoAuditInProgram(config: PublicationConfig, ctx: Context, insert: bool)
    ensures forall s :: s in P.Program(config, ctx, insert) ==> !s.MergeAudit?
  {
    S.StagesOnly(config.publications, ctx);
  }

  lemma NextKeepsRevoked(setup: Setup, w: W.Warehouse, e: Event, ctx: Context)
    requires Revoked(w, ctx) && !PassedValidation(setup, e, ctx)
    ensures Revoked(Next(setup, w, e), ctx)
  {
    match e
    case Validate(_, _, lives) => ExecKeepsRevoked(w, lives, P.AuditStatements(ReportOf(setup, e)), ctx);
    case Compare(_, _) =>
    case Promote(other, report, _, lives) =>
      ExecKeepsRevoked(w, lives, [W.EnsureObject, W.EnsureObject], ctx);
      var p := W.Exec(w, lives, [W.EnsureObject, W.EnsureObject]);
      if ReportVerdict(other, report).None? && p.done && P.Gates(p.w.session, other).Go? {
        var insert := P.Gates(p.w.session, other).insert;
        NoAuditInProgram(setup.config, other, insert);
        ExecKeepsRevoked(p.w, p.left, P.Program(setup.config, other, insert), ctx);
      }
    case CloseConnection =>
  }

  lemma {:induction false} StaysRevoked(setup: Setup, events: seq<Event>, later: seq<Event>, ctx: Context)
    requires Revoked(Run(setup, events), ctx)
    requires forall e :: e in later ==> !PassedValidation(setup, e, ctx)
    ensures Revoked(Run(setup, events + later), ctx)
  {
    if later == [] {
      assert events + later == events;
    } else {
      var n := |later| - 1;
      assert (events + later)[..|events + later| - 1] == events + later[..n];
      StaysRevoked(setup, events, later[..n], ctx);
      NextKeepsRevoked(setup, Run(setup, events + later[..n]), later[n], ctx);
    }
  }

  /** Re-validation revokes: once a validation of a run that did not pass is recorded, no
      promotion of that run at that batch is accepted, whatever happens in between, until
      a later validation of it passes. */
  lemma FailedValidationRevokes(setup: Setup, events: seq<Event>, failed: Event, later: seq<Event>, ctx: Context,
                                report: ValidationReport, lives: nat)
    requires failed.Validate? && failed.ctx.runId == ctx.runId && !ReportOf(setup, failed).passed && failed.lives >= 6
    requires forall e :: e in later ==> !PassedValidation(setup, e, ctx)
    ensures var w := Run(setup, events + [failed] + later);
            var o := P.Promotion(setup.config, w, lives, ctx, report);
            o.result.Refused? || o.result.Interrupted?
    ensures var w := Run(setup, events + [failed] + later);
            P.Promotion(setup.config, w, lives, ctx, report).w.analytics == w.analytics
  {
    assert (events + [failed])[..|events|] == events;
    var before := Run(setup, events);
    T.AuditCompletes(before, failed.lives, ReportOf(setup, failed));
    UpsertThenRead(before.session.validations, AuditRow(ctx.runId, failed.ctx.batch, false), ctx.runId);
    StaysRevoked(setup, events + [failed], later, ctx);
    T.EnsureExec(Run(setup, events + [failed] + later), lives);
  }

  // ---- DuckDB --------------------------------------------------------------------------------------

  function DuckNext(setup: Setup, d: D.Database, e: Event): D.Database {
    match e
    case Validate(_, _, lives) => DP.Audited(d, lives, ReportOf(setup, e)).d
    case Compare(_, _) => d
    case Promote(ctx, report, at, lives) => DP.Promotion(setup.config, d, lives, ctx, report, at).d
    case CloseConnection => d
  }

  function DuckRun(setup: Setup, events: seq<Event>): D.Database {
    if events == [] then DT.Fresh(setup.schemas)
    else DuckNext(setup, DuckRun(setup, events[..|events| - 1]), events[|events| - 1])
  }

  function DuckSeen(setup: Setup, e: Event): seq<DT.Event> {
    match e
    case Validate(_, _, lives) => [DT.Record(ReportOf(setup, e), lives)]
    case Compare(_, _) => []
    case Promote(ctx, report, at, lives) => [DT.Promote(ctx, report, at, lives)]
    case CloseConnection => []
  }

  function DuckTrace(setup: Setup, events: seq<Event>): seq<DT.Event> {
    if events == [] then [] else DuckTrace(setup, events[..|events| - 1]) + DuckSeen(setup, events[|events| - 1])
  }

  lemma DuckTracedStep(setup: Setup, d: D.Database, before: seq<DT.Event>, e: Event)
    requires d == DT.RunAll(setup.config, setup.schemas, before)
    ensures DuckNext(setup, d, e) == DT.RunAll(setup.config, setup.schemas, before + DuckSeen(setup, e))
  {
    var more := DuckSeen(setup, e);
    if more == [] { assert before + more == before; } else { assert (before + more)[..|before|] == before; }
  }

  lemma {:induction false} DuckRunIsTraced(setup: Setup, events: seq<Event>)
    ensures DuckRun(setup, events) == DT.RunAll(setup.config, setup.schemas, DuckTrace(setup, events))
  {
    if events != [] {
      var n := |events| - 1;
      DuckRunIsTraced(setup, events[..n]);
      DuckTracedStep(setup, DuckRun(setup, events[..n]), DuckTrace(setup, events[..n]), events[n]);
    }
  }

  lemma {:induction false} DuckTraceComesFrom(setup: Setup, events: seq<Event>, s: DT.Event) returns (e: Event)
    requires s in DuckTrace(setup, events)
    ensures e in events && s in DuckSeen(setup, e)
  {
    var front, last := events[..|events| - 1], events[|events| - 1];
    assert events == front + [last];
    if s in DuckSeen(setup, last) { e := last; } else { e := DuckTraceComesFrom(setup, front, s); }
  }

  lemma DuckRecordedWasValidated(setup: Setup, events: seq<Event>, ctx: Context)
    requires ctx in DT.Recorded(DuckTrace(setup, events))
    ensures WasValidated(setup, events, ctx)
  {
    var s :| s in DuckTrace(setup, events) && s.Record? && s.report.passed && s.report.batch >= 1
             && Context(s.report.runId, s.report.batch) == ctx;
    var e := DuckTraceComesFrom(setup, events, s);
    assert PassedValidation(setup, e, ctx);
  }

  /** Fail closed, on DuckDB. */
  lemma LiveIsVouchedOnDuckDb(setup: Setup, events: seq<Event>)
    requires Framing.Faithful(setup.lib) && forall rule :: rule in setup.entities ==> rule.columns != []
    ensures var views := DuckRun(setup, events).views;
            || views == map[]
            || exists ctx :: views == DT.ViewSet(setup.config, ctx) && Vouched(setup, events, ctx)
  {
    DuckRunIsTraced(setup, events);
    DT.ViewsAgree(setup.config, setup.schemas, DuckTrace(setup, events));
    var d := DuckRun(setup, events);
    if d.views != map[] {
      var ctx :| ctx in DT.Recorded(DuckTrace(setup, events)) && d.views == DT.ViewSet(setup.config, ctx);
      DuckRecordedWasValidated(setup, events, ctx);
      var e :| e in events && PassedValidation(setup, e, ctx);
      ValidatedIsVouched(setup, events, ctx, e);
    }
  }

  lemma DuckNextKeepsRevoked(setup: Setup, d: D.Database, e: Event, ctx: Context)
    requires !Authorised(d.validations, ctx) && !PassedValidation(setup, e, ctx)
    ensures !Authorised(DuckNext(setup, d, e).validations, ctx)
  {
    match e
    case Validate(_, _, lives) =>
      var report := ReportOf(setup, e);
      DT.AuditOnly(d, lives, report);
      UpsertThenRead(d.validations, AuditRow(report.runId, report.batch, report.passed), ctx.runId);
    case Compare(_, _) =>
    case Promote(other, report, at, lives) => DT.AllOrNothing(setup.config, d, lives, other, report, at);
    case CloseConnection =>
  }

  lemma {:induction false} DuckStaysRevoked(setup: Setup, events: seq<Event>, later: seq<Event>, ctx: Context)
    requires !Authorised(DuckRun(setup, events).validations, ctx)
    requires forall e :: e in later ==> !PassedValidation(setup, e, ctx)
    ensures !Authorised(DuckRun(setup, events + later).validations, ctx)
  {
    if later == [] {
      assert events + later == events;
    } else {
      var n := |later| - 1;
      assert (events + later)[..|events + later| - 1] == events + later[..n];
      DuckStaysRevoked(setup, events, later[..n], ctx);
      DuckNextKeepsRevoked(setup, DuckRun(setup, events + later[..n]), later[n], ctx);
    }
  }

  /** Re-validation revokes on DuckDB too: once a failed validation of a run is recorded, every
      promotion of that run is refused or interrupted and changes nothing, until a later
      validation of it passes. */
  lemma FailedValidationRevokesOnDuckDb(setup: Setup, events: seq<Event>, failed: Event, later: seq<Event>,
                                        ctx: Context,
                                        report: ValidationReport, at: int, lives: nat)
    requires failed.Validate? && failed.ctx.runId == ctx.runId && !ReportOf(setup, failed).passed && failed.lives >= 3
    requires forall e :: e in later ==> !PassedValidation(setup, e, ctx)
    ensures var d := DuckRun(setup, events + [failed] + later);
            var o := DP.Promotion(setup.config, d, lives, ctx, report, at);
            (o.result.Refused? || o.result.Interrupted?) && o.d == d
  {
    assert (events + [failed])[..|events|] == events;
    var before := DuckRun(setup, events);
    DT.AuditOnly(before, failed.lives, ReportOf(setup, failed));
    UpsertThenRead(before.validations, AuditRow(ctx.runId, failed.ctx.batch, false), ctx.runId);
    DuckStaysRevoked(setup, events + [failed], later, ctx);
  }

  // ---- going live ---------------------------------------------------------------------------------

  // Nothing newer is published, and the run's own rows carry its batch.
  ghost predicate Unhindered(t: W.Tables, ctx: Context) {
    && (forall p :: p in t.publications && p.status == W.Published ==> p.batch <= ctx.batch)
    && (forall p :: p in t.publications && p.runId == ctx.runId ==> p.batch == ctx.batch)
  }

  lemma AfterValidation(setup: Setup, events: seq<Event>, ctx: Context, readers: Readers)
    requires ReportOf(setup, Validate(ctx, readers, 6)).passed && Unhindered(Run(setup, events).session, ctx)
    ensures var t, after := Run(setup, events).session, Run(setup, events + [Validate(ctx, readers, 6)]).session;
            T.Promotable(after, ctx) && after.publications == t.publications
    ensures Run(setup, events + [Validate(ctx, readers, 6)]).analytics == Run(setup, events).analytics
  {
    var v := Validate(ctx, readers, 6);
    assert (events + [v])[..|events|] == events;
    var w := Run(setup, events);
    T.AuditCompletes(w, 6, ReportOf(setup, v));
    UpsertThenRead(w.session.validations, AuditRow(ctx.runId, ctx.batch, true), ctx.runId);
  }

  /** From every state of the pipeline a run whose own validation passed goes live on Snowflake:
      validated and promoted with the report of that validation, neither interrupted, with nothing
      newer published and no row of it at another batch. If it was already recorded as published,
      it stays so and the views stay as they are. */
  lemma ValidatedRunGoesLive(setup: Setup, events: seq<Event>, ctx: Context, readers: Readers, at: int)
    requires ReportOf(setup, Validate(ctx, readers, 6)).passed && Unhindered(Run(setup, events).session, ctx)
    ensures var v := Validate(ctx, readers, 6);
            var p := Promote(ctx, ReportOf(setup, v), at, T.Needed(setup.config));
            var before, w := Run(setup, events), Run(setup, events + [v] + [p]);
            && T.PublishedIn(w.session, ctx.runId)
            && w.analytics == if T.PublishedIn(before.session, ctx.runId) then before.analytics
                              else Some(S.ViewSet(setup.config, ctx))
  {
    var v := Validate(ctx, readers, 6);
    var p := Promote(ctx, ReportOf(setup, v), at, T.Needed(setup.config));
    assert (events + [v] + [p])[..|events| + 1] == events + [v];
    AfterValidation(setup, events, ctx, readers);
    RunIsTraced(setup, events + [v]);
    T.Resumption(setup.config, Trace(setup, events + [v]), ctx, ReportOf(setup, v), T.Needed(setup.config), 4);
  }

  /** And on DuckDB, where the status view has its schema. */
  lemma ValidatedRunGoesLiveOnDuckDb(setup: Setup, events: seq<Event>, ctx: Context, readers: Readers, at: int)
    requires ReportOf(setup, Validate(ctx, readers, 3)).passed
    requires forall p :: p in DuckRun(setup, events).publications ==> p.batch <= ctx.batch
    requires forall p :: p in DuckRun(setup, events).publications && p.runId == ctx.runId ==> p.batch == ctx.batch
    requires R.HasAnalytics(setup.config, DuckRun(setup, events).schemas)
    ensures var v := Validate(ctx, readers, 3);
            var p := Promote(ctx, ReportOf(setup, v), at, R.DuckDbNeeded(setup.config));
            var before, d := DuckRun(setup, events), DuckRun(setup, events + [v] + [p]);
            R.Published(setup.config, before, d, ctx)
  {
    var v := Validate(ctx, readers, 3);
    AfterDuckValidation(setup, events, ctx, readers);
    DuckPromotes(setup, events + [v], ctx, ReportOf(setup, v), at);
  }

  lemma DuckPromotes(setup: Setup, events: seq<Event>, ctx: Context, report: ValidationReport, at: int)
    requires Matches(ctx, report) && DT.Promotable(DuckRun(setup, events), ctx)
    requires R.HasAnalytics(setup.config, DuckRun(setup, events).schemas)
    ensures var p := Promote(ctx, report, at, R.DuckDbNeeded(setup.config));
            R.Published(setup.config, DuckRun(setup, events), DuckRun(setup, events + [p]), ctx)
  {
    var p := Promote(ctx, report, at, R.DuckDbNeeded(setup.config));
    assert (events + [p])[..|events|] == events;
    DuckRunIsTraced(setup, events);
    var trace := DuckTrace(setup, events);
    var owner := DT.ReachableSafe(setup.config, setup.schemas, trace);
    R.DuckDbPublishes(setup.config, DuckRun(setup, events), DT.Recorded(trace), owner,
                      R.DuckDbNeeded(setup.config), ctx, report, at);
  }

  lemma AfterDuckValidation(setup: Setup, events: seq<Event>, ctx: Context, readers: Readers)
    requires ReportOf(setup, Validate(ctx, readers, 3)).passed
    ensures var d, after := DuckRun(setup, events), DuckRun(setup, events + [Validate(ctx, readers, 3)]);
            && Authorised(after.validations, ctx)
            && after.publications == d.publications && after.views == d.views && after.schemas == d.schemas
  {
    var v := Validate(ctx, readers, 3);
    assert (events + [v])[..|events|] == events;
    var d := DuckRun(setup, events);
    DT.AuditOnly(d, 3, ReportOf(setup, v));
    UpsertThenRead(d.validations, AuditRow(ctx.runId, ctx.batch, true), ctx.runId);
  }

  // ---- comparisons --------------------------------------------------------------------------------

  function WithoutComparisons(events: seq<Event>): seq<Event> {
    if events == [] then []
    else
      var last := events[|events| - 1];
      WithoutComparisons(events[..|events| - 1]) + if last.Compare? then [] else [last]
  }

  /** Comparisons leave no trace: audit rows, publication rows and views are what they would
      be had no comparison been run. */
  lemma {:induction false} ComparisonsLeaveNoTrace(setup: Setup, events: seq<Event>)
    ensures Run(setup, WithoutComparisons(events)) == Run(setup, events)
    ensures DuckRun(setup, WithoutComparisons(events)) == DuckRun(setup, events)
  {
    if events != [] {
      var front, last := events[..|events| - 1], events[|events| - 1];
      ComparisonsLeaveNoTrace(setup, front);
      var kept := WithoutComparisons(front);
      if last.Compare? { assert kept + [] == kept; } else { assert (kept + [last])[..|kept|] == kept; }
    }
  }
}
