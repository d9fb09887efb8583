/** What operators may rely on from Snowflake publication, stated over every run. */
module SnowflakeTheorems {
  import opened Models
  import opened Snowflake
  import opened SnowflakePromotion
  import opened SnowflakeSafety

  // ---- crash safety --------------------------------------------------------------------

  /** After any sequence of events with a stop after any step: the live schema is absent,
      empty, or the complete view set of one (run, batch) that an earlier event recorded
      as passed and whose promotion found its audit row saying so; a run has at most one
      publication row; and no durably published batch is above the live one. */
  lemma CrashSafety(config: PublicationConfig, events: seq<Event>)
    ensures var w := RunAll(config, events);
            && UniqueRuns(w.durable.publications)
            && (|| ((w.analytics.None? || w.analytics == Some(map[]))
                    && forall p :: p in w.durable.publications ==> p.status == Pending)
                || exists ctx: Context ::
                     && ctx in Recorded(events) && ctx in Admitted(config, events)
                     && w.analytics == Some(ViewSet(config, ctx))
                     && forall p :: p in w.durable.publications && p.status == Published ==> p.batch <= ctx.batch)
  {
    var owner := ReachableSafe(config, events);
    if owner.Some? { assert owner.value in Recorded(events) && owner.value in Admitted(config, events); }
  }

  /** The live schema changes only to the complete view set of the promoted run, and only
      when that run's audit row says passed at that batch and nothing newer is published. */
  lemma LiveChangesOnlyWhenAuthorised(config: PublicationConfig, events: seq<Event>, e: Event)
    ensures var w, w' := RunAll(config, events), RunAll(config, events + [e]);
            || w'.analytics == w.analytics
            || (w.analytics.None? && w'.analytics == Some(map[]))
            || (&& e.Promote?
                && w'.analytics == Some(ViewSet(config, e.ctx))
                && e.report.passed && e.report.runId == e.ctx.runId && e.report.batch == e.ctx.batch
                && Authorised(w.session.validations, e.ctx)
                && forall p :: p in w.session.publications && p.status == Published ==> p.batch <= e.ctx.batch)
  {
    assert (events + [e])[..|events|] == events;
    var w := RunAll(config, events);
    var owner := ReachableSafe(config, events);
    match e
    case Promote(ctx, report, lives) =>
      EnsureExec(w, lives);
      var p := Exec(w, lives, [EnsureObject, EnsureObject]);
      if ReportVerdict(ctx, report).None? && p.done && Gates(p.w.session, ctx).Go? {
        var known := Recorded(events);
        QuietExec(config, w, known, owner, lives, [EnsureObject, EnsureObject]);
        GatesClear(p.w.session, known, owner, ctx);
        ProgramLive(config, p.w, known, owner, p.left, ctx, Gates(p.w.session, ctx).insert);
      }
    case Record(report, lives) => QuietLive(w, lives, AuditStatements(report));
    case CloseConnection =>
  }

  lemma {:induction false} QuietLive(w: Warehouse, left: nat, ss: seq<Statement>)
    requires forall s :: s in ss ==> !s.SwapSchemas? && !s.EnsureAnalytics?
    ensures Exec(w, left, ss).w.analytics == w.analytics
    decreases |ss|
  {
    if ss != [] {
      var p := Step(w, left, ss[0]);
      if p.done { QuietLive(p.w, p.left, ss[1..]); }
    }
  }

  lemma EnsureExec(w: Warehouse, left: nat)
    ensures var p := Exec(w, left, [EnsureObject, EnsureObject]);
            && p.w.session == w.session && p.w.analytics == w.analytics && p.w.staging == w.staging
            && (p.w.durable == w.durable || p.w.durable == w.session)
            && (p.done <==> left >= 4)
            && (p.done ==> p.w == Commit(w) && p.left == left - 4)
  {
  }

  lemma AuditCompletes(w: Warehouse, left: nat, report: ValidationReport)
    requires left >= 6
    ensures var row := AuditRow(report.runId, report.batch, report.passed);
            var t := w.session.(validations := Upsert(w.session.validations, row));
            Exec(w, left, AuditStatements(report)).w == w.(durable := t, session := t)
  {
    var merge := MergeAudit(AuditRow(report.runId, report.batch, report.passed));
    assert AuditStatements(report) == [EnsureObject, EnsureObject] + [merge, CommitWork];
    ExecSplit(w, left, [EnsureObject, EnsureObject], [merge, CommitWork]);
    EnsureExec(w, left);
    var p := Exec(w, left, [EnsureObject, EnsureObject]);
    assert [merge, CommitWork][1..] == [CommitWork] && [CommitWork][1..] == [];
  }

  lemma ProgramLive(config: PublicationConfig, w: Warehouse, known: set<Context>, owner: Option<Context>,
                    left: nat, ctx: Context, insert: bool)
    requires Safe(config, w, known, owner) && Cleared(w.session.publications, ctx)
    requires insert ==> forall p :: p in w.session.publications ==> p.runId != ctx.runId
    ensures var a := Exec(w, left, Program(config, ctx, insert)).w.analytics;
            a == w.analytics || a == Some(ViewSet(config, ctx)) || (w.analytics.None? && a == Some(map[]))
  {
    var before, after := BeforeSwap(config, ctx, insert), [SwapSchemas] + RecordStatements(ctx);
    ExecSplit(w, left, before, after);
    BeforeSwapSafe(config, w, known, owner, left, ctx, insert);
    var p := Exec(w, left, before);
    if p.done {
      var q := Step(p.w, p.left, SwapSchemas);
      assert after[1..] == RecordStatements(ctx);
      if q.done { QuietLive(q.w, q.left, RecordStatements(ctx)); }
    } else {
      BeforeSwapLive(config, w, left, ctx, insert);
    }
  }

  lemma BeforeSwapLive(config: PublicationConfig, w: Warehouse, left: nat, ctx: Context, insert: bool)
    ensures var p := Exec(w, left, BeforeSwap(config, ctx, insert));
            p.w.analytics == w.analytics || (w.analytics.None? && p.w.analytics == Some(map[]))
  {
    var first := (if insert then [InsertPending(ctx)] else []) + BuildStatements(config, ctx);
    StagesOnly(config.publications, ctx);
    ExecSplit(w, left, first, [EnsureAnalytics]);
    QuietLive(w, left, first);
    assert [EnsureAnalytics][1..] == [];
  }

  /** A batch once recorded as published stays recorded, whatever happens afterwards:
      the recorded published batch never goes down. */
  lemma PublishedIsForever(config: PublicationConfig, events: seq<Event>, e: Event, row: PublicationRow)
    requires row in RunAll(config, events).durable.publications && row.status == Published
    ensures row in RunAll(config, events + [e]).durable.publications
  {
    assert (events + [e])[..|events|] == events;
    var w := RunAll(config, events);
    var owner := ReachableSafe(config, events);
    match e
    case Promote(ctx, report, lives) =>
      EnsureExec(w, lives);
      var p := Exec(w, lives, [EnsureObject, EnsureObject]);
      if ReportVerdict(ctx, report).None? && p.done && Gates(p.w.session, ctx).Go? {
        ExecKeepsRow(p.w, p.left, Program(config, ctx, Gates(p.w.session, ctx).insert), row);
      }
    case Record(report, lives) => ExecKeepsRow(w, lives, AuditStatements(report), row);
    case CloseConnection =>
  }

  lemma {:induction false} ExecKeepsRow(w: Warehouse, left: nat, ss: seq<Statement>, row: PublicationRow)
    requires row.status == Published && row in w.durable.publications && row in w.session.publications
    ensures var p := Exec(w, left, ss); row in p.w.durable.publications && row in p.w.session.publications
    decreases |ss|
  {
    if ss != [] {
      if ss[0].MarkPublished? {
        var rows := w.session.publications;
        MarkedRows(rows, ss[0].runId);
        var i :| 0 <= i < |rows| && rows[i] == row;
        assert Marked(rows, ss[0].runId)[i] == row;
      }
      var p := Step(w, left, ss[0]);
      if p.done { ExecKeepsRow(p.w, p.left, ss[1..], row); }
    }
  }

  // ---- resumption ----------------------------------------------------------------------

  // Steps one promotion can take.
  function Needed(config: PublicationConfig): nat { 2 * |config.publications| + 17 }

  lemma {:induction false} StagesComplete(w: Warehouse, left: nat, publications: seq<PublicationRule>, ctx: Context)
    requires w.staging.Some? && left >= 2 * |publications|
    ensures var p := Exec(w, left, StageStatements(publications, ctx));
            p.done && p.left == left - 2 * |publications|
            && p.w.staging.Some? && p.w.analytics == w.analytics
    decreases |publications|
  {
    if publications != [] {
      var s := StageStatements(publications, ctx);
      assert s[1..] == StageStatements(publications[1..], ctx);
      var p := Step(w, left, s[0]);
      StagesComplete(p.w, p.left, publications[1..], ctx);
    }
  }

  lemma BuildCompletes(config: PublicationConfig, w: Warehouse, left: nat, ctx: Context)
    requires left >= 2 * |config.publications| + 4
    ensures var p := Exec(w, left, BuildStatements(config, ctx));
            p.done && p.left == left - 2 * |config.publications| - 4
            && p.w == Commit(w).(staging := Some(ViewSet(config, ctx)))
  {
    var middle := StageStatements(config.publications, ctx);
    var last := [StageView(STATUS_VIEW, StatusView)];
    var all := BuildStatements(config, ctx);
    assert all[0] == ReplaceStaging && all[1..] == middle + last;
    var p := Step(w, left, ReplaceStaging);
    StagesComplete(p.w, p.left, config.publications, ctx);
    ExecSplit(p.w, p.left, middle, last);
    assert last[1..] == [];
    BuildStages(config, w, left, ctx);
  }

  function PendingRow(ctx: Context): PublicationRow { PublicationRow(ctx.runId, ctx.batch, Pending) }

  function Inserted(t: Tables, ctx: Context, insert: bool): Tables {
    if insert then t.(publications := t.publications + [PendingRow(ctx)]) else t
  }

  // The warehouse one uninterrupted promotion leaves.
  function PublishedWarehouse(config: PublicationConfig, t: Tables, ctx: Context): Warehouse {
    var t' := t.(publications := Marked(t.publications, ctx.runId));
    Warehouse(t', t', Some(ViewSet(config, ctx)), None)
  }

  lemma ProgramCompletes(config: PublicationConfig, w: Warehouse, left: nat, ctx: Context, insert: bool)
    requires left >= 2 * |config.publications| + 13
    ensures var p := Exec(w, left, Program(config, ctx, insert));
            p.done && p.w == PublishedWarehouse(config, Inserted(w.session, ctx, insert), ctx)
  {
    var build, tail := BuildStatements(config, ctx), [EnsureAnalytics, SwapSchemas] + RecordStatements(ctx);
    ProgramParts(config, ctx, insert);
    var first := if insert then [InsertPending(ctx)] else [];
    ExecSplit(w, left, first, build + tail);
    assert [InsertPending(ctx)][1..] == [];
    var p := Exec(w, left, first);
    ExecSplit(p.w, p.left, build, tail);
    BuildCompletes(config, p.w, p.left, ctx);
    var q := Exec(p.w, p.left, build);
    TailCompletes(q.w, q.left, ctx);
  }

  lemma TailCompletes(w: Warehouse, left: nat, ctx: Context)
    requires w.staging.Some? && left >= 8
    ensures var p := Exec(w, left, [EnsureAnalytics, SwapSchemas] + RecordStatements(ctx));
            var t := w.session.(publications := Marked(w.session.publications, ctx.runId));
            p.done && p.w == Warehouse(t, t, w.staging, None)
  {
    var rest := [SwapSchemas] + RecordStatements(ctx);
    assert [EnsureAnalytics, SwapSchemas] + RecordStatements(ctx) == [EnsureAnalytics] + rest;
    ExecCons(w, left, EnsureAnalytics, rest);
    var p := Step(w, left, EnsureAnalytics);
    ExecCons(p.w, p.left, SwapSchemas, RecordStatements(ctx));
    var q := Step(p.w, p.left, SwapSchemas);
    RecordCompletes(q.w, q.left, ctx);
  }

  lemma RecordCompletes(w: Warehouse, left: nat, ctx: Context)
    requires left >= 4
    ensures var p := Exec(w, left, RecordStatements(ctx));
            var t := w.session.(publications := Marked(w.session.publications, ctx.runId));
            p.done && p.w == Warehouse(t, t, w.analytics, None)
  {
    assert RecordStatements(ctx) == [MarkPublished(ctx.runId)] + [DropStaging, CommitWork];
    ExecCons(w, left, MarkPublished(ctx.runId), [DropStaging, CommitWork]);
    var r := Step(w, left, MarkPublished(ctx.runId));
    assert [DropStaging, CommitWork] == [DropStaging] + [CommitWork];
    ExecCons(r.w, r.left, DropStaging, [CommitWork]);
    var u := Step(r.w, r.left, DropStaging);
    assert [CommitWork][1..] == [];
  }

  ghost predicate PublishedIn(t: Tables, runId: string) {
    exists p :: p in t.publications && p.runId == runId && p.status == Published
  }

  // What a caller can read off the control tables before promoting.
  ghost predicate Promotable(t: Tables, ctx: Context) {
    && Authorised(t.validations, ctx)
    && (forall p :: p in t.publications && p.status == Published ==> p.batch <= ctx.batch)
    && (forall p :: p in t.publications && p.runId == ctx.runId ==> p.batch == ctx.batch)
  }

  lemma GatesExactly(t: Tables, ctx: Context)
    requires UniqueRuns(t.publications)
    ensures !Gates(t, ctx).Rejected? <==> Promotable(t, ctx)
    ensures Promotable(t, ctx) ==> (Gates(t, ctx).AlreadyPublished? <==> PublishedIn(t, ctx.runId))
    ensures Gates(t, ctx) == Rejected(NoAuditRow) <==> !Authorised(t.validations, ctx)
    ensures Gates(t, ctx) == Rejected(NewerBatch)
       <==> && Authorised(t.validations, ctx)
            && exists p :: p in t.publications && p.status == Published && p.batch > ctx.batch
    ensures Gates(t, ctx) == Rejected(OtherBatch)
       <==> && Authorised(t.validations, ctx)
            && (forall p :: p in t.publications && p.status == Published ==> p.batch <= ctx.batch)
            && exists p :: p in t.publications && p.runId == ctx.runId && p.batch != ctx.batch
  {
  }

  /** From every reachable state and with any report, whatever its checks, an uninterrupted
      promotion is accepted exactly when the report passed and is this run's at this batch and
      the control tables allow it. Any other report is refused before anything is touched. */
  lemma AcceptedExactlyWhen(config: PublicationConfig, events: seq<Event>, ctx: Context, report: ValidationReport,
                            lives: nat)
    requires lives >= Needed(config)
    ensures var w := RunAll(config, events);
            var o := Promotion(config, w, lives, ctx, report);
            && (o.result in {Promoted, Unchanged}
                <==> && report.passed && report.runId == ctx.runId && report.batch == ctx.batch
                     && Promotable(w.session, ctx))
            && (!(report.passed && report.runId == ctx.runId && report.batch == ctx.batch) ==>
                  o.w == w && o.result == Refused(if report.passed then ForeignReport else FailedReport))
  {
    ReportDecides(ctx, report);
    if Matches(ctx, report) { Resumption(config, events, ctx, report, lives, 4); }
  }

  /** From every reachable state, however it was reached, an uninterrupted promotion is
      accepted exactly when the control tables allow it. A run not yet recorded as
      published ends live, recorded, and with staging gone; repeating it changes nothing.
      A run already recorded as published is left exactly as it is. */
  lemma Resumption(config: PublicationConfig, events: seq<Event>, ctx: Context,
                   report: ValidationReport, lives: nat, again: nat)
    requires Matches(ctx, report) && lives >= Needed(config) && again >= 4
    ensures var w := RunAll(config, events);
            var o := Promotion(config, w, lives, ctx, report);
            && (o.result in {Promoted, Unchanged} <==> Promotable(w.session, ctx))
            && (o.result == Promoted <==> Promotable(w.session, ctx) && !PublishedIn(w.session, ctx.runId))
            && (o.result != Promoted ==> o.w == Commit(w))
            && (o.result == Promoted ==>
                  && o.w.analytics == Some(ViewSet(config, ctx)) && o.w.staging.None?
                  && o.w.durable == o.w.session && PublishedIn(o.w.durable, ctx.runId)
                  && Promotion(config, o.w, again, ctx, report) == Outcome(o.w, again - 4, Unchanged))
  {
    var w := RunAll(config, events);
    var known := Recorded(events);
    var owner := ReachableSafe(config, events);
    EnsureExec(w, lives);
    var p := Exec(w, lives, [EnsureObject, EnsureObject]);
    GatesExactly(w.session, ctx);
    if Gates(w.session, ctx).Go? {
      var insert := Gates(w.session, ctx).insert;
      ProgramCompletes(config, p.w, p.left, ctx, insert);
      RecordedAfterwards(w.session, known, owner, ctx);
      var w' := Exec(p.w, p.left, Program(config, ctx, insert)).w;
      GatesExactly(w'.session, ctx);
      EnsureExec(w', again);
      assert Commit(w') == w';
    }
  }

  lemma RecordedAfterwards(t: Tables, known: set<Context>, owner: Option<Context>, ctx: Context)
    requires SafeTables(t, known, owner) && Gates(t, ctx).Go?
    ensures var t0 := Inserted(t, ctx, Gates(t, ctx).insert);
            var t' := t0.(publications := Marked(t0.publications, ctx.runId));
            UniqueRuns(t'.publications) && Promotable(t', ctx) && PublishedIn(t', ctx.runId)
  {
    GatesClear(t, known, owner, ctx);
    var insert := Gates(t, ctx).insert;
    var rows := Inserted(t, ctx, insert).publications;
    var i := if insert then |rows| - 1 else RowIndex(t, ctx);
    assert Authorised(t.validations, ctx);
    MarkingClears(rows, ctx, i);
  }

  // Where gate 4 found the run's row.
  ghost function RowIndex(t: Tables, ctx: Context): (i: int)
    requires Gates(t, ctx) == Go(false)
    ensures 0 <= i < |t.publications| && t.publications[i].runId == ctx.runId
  {
    var row := PublicationOf(t.publications, ctx.runId).value;
    var i :| 0 <= i < |t.publications| && t.publications[i] == row;
    i
  }

  lemma MarkingClears(rows: seq<PublicationRow>, ctx: Context, i: nat)
    requires UniqueRuns(rows) && Cleared(rows, ctx) && i < |rows| && rows[i].runId == ctx.runId
    ensures var after := Marked(rows, ctx.runId);
            && UniqueRuns(after) && Cleared(after, ctx)
            && exists p :: p in after && p.runId == ctx.runId && p.status == Published
  {
    MarkedRows(rows, ctx.runId);
    var after := Marked(rows, ctx.runId);
    assert after[i] in after;
    MarkedUnique(rows, ctx.runId);
    forall p | p in after
      ensures (p.runId == ctx.runId ==> p.batch == ctx.batch) && (p.status == Published ==> p.batch <= ctx.batch)
    {
      var j :| 0 <= j < |after| && after[j] == p;
      assert rows[j] in rows && (p == rows[j] || p == rows[j].(status := Published));
    }
  }

  /** Whether an accepted, uninterrupted promotion of a run leaves that run live: it does
      unless the run was already recorded as published and something else is live. */
  lemma PromotedRunIsLiveExactlyWhen(config: PublicationConfig, events: seq<Event>, ctx: Context,
                                     report: ValidationReport, lives: nat)
    requires Matches(ctx, report) && lives >= Needed(config)
    requires Promotable(RunAll(config, events).session, ctx)
    ensures var w := RunAll(config, events);
            Promotion(config, w, lives, ctx, report).w.analytics == Some(ViewSet(config, ctx))
            <==> !PublishedIn(w.session, ctx.runId) || w.analytics == Some(ViewSet(config, ctx))
  {
    Resumption(config, events, ctx, report, lives, 4);
  }

  function WithoutPending(rows: seq<PublicationRow>, runId: string): seq<PublicationRow> {
    if rows == [] then []
    else (if rows[0].status == Pending && rows[0].runId != runId then [] else [rows[0]])
         + WithoutPending(rows[1..], runId)
  }

  /** Abandoned pending rows of other runs have no influence on any gate. */
  lemma PendingRowsNeverBlock(t: Tables, ctx: Context)
    ensures Gates(t, ctx) == Gates(t.(publications := WithoutPending(t.publications, ctx.runId)), ctx)
  {
    PendingRowsUnread(t.publications, ctx.runId);
  }

  lemma {:induction false} PendingRowsUnread(rows: seq<PublicationRow>, runId: string)
    ensures MaxPublished(WithoutPending(rows, runId)) == MaxPublished(rows)
    ensures PublicationOf(WithoutPending(rows, runId), runId) == PublicationOf(rows, runId)
  {
    if rows != [] {
      PendingRowsUnread(rows[1..], runId);
      var kept := WithoutPending(rows, runId);
      if !(rows[0].status == Pending && rows[0].runId != runId) {
        assert kept[0] == rows[0] && kept[1..] == WithoutPending(rows[1..], runId);
      } else {
        assert kept == WithoutPending(rows[1..], runId);
      }
    }
  }

  // ---- the live batch may drop, the recorded one may not ---------------------------------

  /** The steps of a promotion up to and including the swap. */
  function ThroughSwap(config: PublicationConfig, insert: bool): nat {
    4 + (if insert then 1 else 0) + 2 * |config.publications| + 4 + 2 + 2
  }

  lemma StoppedAfterSwap(config: PublicationConfig, w: Warehouse, ctx: Context, report: ValidationReport)
    requires Matches(ctx, report) && Gates(w.session, ctx) == Go(true)
    ensures var t := Inserted(w.session, ctx, true);
            Promotion(config, w, ThroughSwap(config, true), ctx, report).w
            == Warehouse(t, t, Some(ViewSet(config, ctx)), Some(if w.analytics.Some? then w.analytics.value else map[]))
  {
    var left := ThroughSwap(config, true);
    EnsureExec(w, left);
    ProgramParts(config, ctx, true);
    AfterBuild(config, Commit(w), left - 4, ctx, [EnsureAnalytics, SwapSchemas] + RecordStatements(ctx));
    var t := Inserted(w.session, ctx, true);
    TailStops(Warehouse(t, t, w.analytics, Some(ViewSet(config, ctx))), ctx);
  }

  // What is left to do once the pending row is in and the views are built.
  lemma AfterBuild(config: PublicationConfig, w: Warehouse, left: nat, ctx: Context, rest: seq<Statement>)
    requires left >= 2 * |config.publications| + 5
    ensures var t := Inserted(w.session, ctx, true);
            Exec(w, left, [InsertPending(ctx)] + (BuildStatements(config, ctx) + rest))
            == Exec(Warehouse(t, t, w.analytics, Some(ViewSet(config, ctx))), left - 2 * |config.publications| - 5,
                    rest)
  {
    var build := BuildStatements(config, ctx);
    ExecCons(w, left, InsertPending(ctx), build + rest);
    var p := Step(w, left, InsertPending(ctx));
    ExecSplit(p.w, p.left, build, rest);
    BuildCompletes(config, p.w, p.left, ctx);
  }

  // Four steps of the rest end right after the swap.
  lemma TailStops(w: Warehouse, ctx: Context)
    requires w.staging.Some? && w.durable == w.session
    ensures Exec(w, 4, [EnsureAnalytics, SwapSchemas] + RecordStatements(ctx)).w
         == w.(analytics := w.staging, staging := Some(if w.analytics.Some? then w.analytics.value else map[]))
  {
    var rest := [SwapSchemas] + RecordStatements(ctx);
    assert [EnsureAnalytics, SwapSchemas] + RecordStatements(ctx) == [EnsureAnalytics] + rest;
    ExecCons(w, 4, EnsureAnalytics, rest);
    var r := Step(w, 4, EnsureAnalytics);
    ExecCons(r.w, r.left, SwapSchemas, RecordStatements(ctx));
    RecordNeedsSteps(Step(r.w, r.left, SwapSchemas).w, ctx);
  }

  lemma RecordNeedsSteps(w: Warehouse, ctx: Context)
    ensures Exec(w, 0, RecordStatements(ctx)).w == w
  {
  }

  /** A stop between swap and record, then a promotion of a lower batch: the live batch goes
      down, while the recorded published batch only ever goes up. */
  lemma LiveBatchCanDrop(config: PublicationConfig, w: Warehouse, high: Context, low: Context,
                         highReport: ValidationReport, lowReport: ValidationReport)
    requires Matches(high, highReport) && Matches(low, lowReport)
    requires low.batch < high.batch && low.runId != high.runId
    requires Gates(w.session, high) == Go(true) && Gates(w.session, low) == Go(true)
    ensures var w1 := Promotion(config, w, ThroughSwap(config, true), high, highReport).w;
            var w2 := Promotion(config, w1, Needed(config), low, lowReport).w;
            w1.analytics == Some(ViewSet(config, high)) && w2.analytics == Some(ViewSet(config, low))
  {
    StoppedAfterSwap(config, w, high, highReport);
    var w1 := Promotion(config, w, ThroughSwap(config, true), high, highReport).w;
    AppendPending(w.session.publications, PendingRow(high), low.runId);
    OpenGatesPromote(config, w1, low, lowReport);
  }

  lemma OpenGatesPromote(config: PublicationConfig, w: Warehouse, ctx: Context, report: ValidationReport)
    requires Matches(ctx, report) && Gates(w.session, ctx) == Go(true)
    ensures Promotion(config, w, Needed(config), ctx, report).w.analytics == Some(ViewSet(config, ctx))
  {
    EnsureExec(w, Needed(config));
    ProgramCompletes(config, Commit(w), Needed(config) - 4, ctx, true);
  }

  lemma {:induction false} AppendPending(rows: seq<PublicationRow>, row: PublicationRow, runId: string)
    requires row.status == Pending && row.runId != runId
    ensures MaxPublished(rows + [row]) == MaxPublished(rows)
    ensures PublicationOf(rows + [row], runId) == PublicationOf(rows, runId)
  {
    if rows == [] {
      assert rows + [row] == [row];
      assert [row][1..] == [];
    } else {
      assert (rows + [row])[1..] == rows[1..] + [row];
      AppendPending(rows[1..], row, runId);
    }
  }

  // ---- what a complete view set is -------------------------------------------------------

  // Publications that end up under one name show the same thing, and none hides the log.
  ghost predicate NamesKeepApart(config: PublicationConfig) {
    && (forall i, j :: 0 <= i < |config.publications| && 0 <= j < |config.publications|
          && StagedName(config.publications[i]) == StagedName(config.publications[j])
          ==> Upper(config.publications[i].relation) == Upper(config.publications[j].relation)
              && Upper(config.publications[i].batchColumn) == Upper(config.publications[j].batchColumn))
    && (forall i :: 0 <= i < |config.publications| ==> StagedName(config.publications[i]) != STATUS_VIEW)
  }

  // Publication `i` is visible in a view set under its own definition.
  ghost predicate Shown(config: PublicationConfig, ctx: Context, i: nat)
    requires i < |config.publications|
  {
    var name := StagedName(config.publications[i]);
    && name in ViewSet(config, ctx)
    && Selects(ViewSet(config, ctx)[name], config.publications[i], ctx)
  }

  /** A view set shows every configured publication exactly when the names keep apart; the
      configuration checks the full dotted names only. */
  lemma ViewSetComplete(config: PublicationConfig, ctx: Context)
    ensures (forall i :: 0 <= i < |config.publications| ==> Shown(config, ctx, i)) <==> NamesKeepApart(config)
  {
    var all := config.publications;
    if NamesKeepApart(config) {
      forall i | 0 <= i < |all| ensures Shown(config, ctx, i) {
        PutViewsLookup(map[], all, ctx, StagedName, StagedName(all[i]));
      }
    }
    if forall i :: 0 <= i < |all| ==> Shown(config, ctx, i) {
      forall i, j | 0 <= i < |all| && 0 <= j < |all| && StagedName(all[i]) == StagedName(all[j])
        ensures Upper(all[i].relation) == Upper(all[j].relation)
             && Upper(all[i].batchColumn) == Upper(all[j].batchColumn)
      {
        assert Shown(config, ctx, i) && Shown(config, ctx, j);
        assert ViewOf(all[i], ctx) == ViewOf(all[j], ctx);
      }
      forall i | 0 <= i < |all| ensures StagedName(all[i]) != STATUS_VIEW {
        assert Shown(config, ctx, i);
      }
    }
  }

  // Some publication is not hidden by the status view.
  ghost predicate ShowsARun(config: PublicationConfig) {
    exists i :: 0 <= i < |config.publications| && StagedName(config.publications[i]) != STATUS_VIEW
  }

  /** View sets tell which run and batch they belong to exactly when some publication is not
      named like the status view. */
  lemma ViewSetNamesItsRun(config: PublicationConfig)
    ensures (forall a, b :: ViewSet(config, a) == ViewSet(config, b) ==> a == b) <==> ShowsARun(config)
  {
    if ShowsARun(config) {
      forall a, b | ViewSet(config, a) == ViewSet(config, b) ensures a == b { SameViewSet(config, a, b); }
    } else {
      var a, b := Context("a", 1), Context("b", 1);
      assert ViewSet(config, a) == map[STATUS_VIEW := StatusView] == ViewSet(config, b) by {
        OnlyStatus(config, a);
        OnlyStatus(config, b);
      }
      assert a.runId[0] != b.runId[0];
    }
  }

  lemma SameViewSet(config: PublicationConfig, a: Context, b: Context)
    requires ShowsARun(config)
    ensures ViewSet(config, a) == ViewSet(config, b) ==> a == b
  {
    var i :| 0 <= i < |config.publications| && StagedName(config.publications[i]) != STATUS_VIEW;
    var name := StagedName(config.publications[i]);
    PutViewsLookup(map[], config.publications, a, StagedName, name);
    PutViewsLookup(map[], config.publications, b, StagedName, name);
    assert ViewSet(config, a)[name].runId == a.runId && ViewSet(config, a)[name].batch == a.batch;
    assert ViewSet(config, b)[name].runId == b.runId && ViewSet(config, b)[name].batch == b.batch;
  }

  lemma OnlyStatus(config: PublicationConfig, ctx: Context)
    requires !ShowsARun(config)
    ensures ViewSet(config, ctx) == map[STATUS_VIEW := StatusView]
  {
    var views := PutViews(map[], config.publications, ctx, StagedName);
    forall name | name in views ensures name == STATUS_VIEW {
      PutViewsLookup(map[], config.publications, ctx, StagedName, name);
    }
  }
}
