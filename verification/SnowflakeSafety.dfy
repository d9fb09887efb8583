/** Safety of Snowflake publication over whole runs: any sequence of promotions and
    audit writes, each of which may stop after any step, on a connection that may or
    may not be closed in between. */
module SnowflakeSafety {
  import opened Models
  import opened Snowflake
  import opened SnowflakePromotion

  // `lives` is the number of steps the connection survives within the call.
  datatype Event =
    | Promote(ctx: Context, report: ValidationReport, lives: nat)
    | Record(report: ValidationReport, lives: nat)
    | CloseConnection

  const EMPTY := Tables([], [])
  const FRESH := Warehouse(EMPTY, EMPTY, None, None)

  function Next(config: PublicationConfig, w: Warehouse, e: Event): Warehouse {
    match e
    case Promote(ctx, report, lives) => Promotion(config, w, lives, ctx, report).w
    case Record(report, lives) => Exec(w, lives, AuditStatements(report)).w
    case CloseConnection => Disconnect(w)
  }

  function RunAll(config: PublicationConfig, events: seq<Event>): Warehouse {
    if events == [] then FRESH
    else Next(config, RunAll(config, events[..|events| - 1]), events[|events| - 1])
  }

  // The (run, batch) pairs for which a passed report was handed to the audit writer.
  ghost function Recorded(events: seq<Event>): set<Context> {
    set e | e in events && e.Record? && e.report.passed && e.report.batch >= 1 ::
      Context(e.report.runId, e.report.batch)
  }

  // The complete set of views of one run at one batch.
  function ViewSet(config: PublicationConfig, ctx: Context): Schema {
    PutViews(map[], config.publications, ctx, StagedName)[STATUS_VIEW := StatusView]
  }

  ghost predicate UniqueRuns(rows: seq<PublicationRow>) {
    forall i, j :: 0 <= i < j < |rows| ==> rows[i].runId != rows[j].runId
  }

  ghost predicate Below(rows: seq<PublicationRow>, owner: Option<Context>) {
    forall p :: p in rows && p.status == Published ==> owner.Some? && p.batch <= owner.value.batch
  }

  ghost predicate SafeTables(t: Tables, known: set<Context>, owner: Option<Context>) {
    && UniqueRuns(t.publications)
    && Below(t.publications, owner)
    && (forall r :: r in t.validations && r.passed && r.batch >= 1 ==> Context(r.runId, r.batch) in known)
  }

  // What the live schema is: absent or empty before any swap, then one run's complete set.
  ghost predicate LiveIs(config: PublicationConfig, w: Warehouse, owner: Option<Context>) {
    match owner
    case None => w.analytics == None || w.analytics == Some(map[])
    case Some(ctx) => w.analytics == Some(ViewSet(config, ctx))
  }

  ghost predicate KeepsPublished(before: Tables, after: Tables) {
    forall p :: p in before.publications && p.status == Published ==> p in after.publications
  }

  ghost predicate Safe(config: PublicationConfig, w: Warehouse, known: set<Context>, owner: Option<Context>) {
    && SafeTables(w.durable, known, owner)
    && SafeTables(w.session, known, owner)
    && KeepsPublished(w.durable, w.session)
    && LiveIs(config, w, owner)
    && (owner.Some? ==> owner.value in known)
  }

  // ---- single statements -------------------------------------------------------------

  // Statements that touch neither the publication rows nor an existing live schema.
  ghost predicate Quiet(s: Statement, known: set<Context>) {
    && !s.InsertPending? && !s.SwapSchemas? && !s.MarkPublished?
    && (s.MergeAudit? && s.row.passed && s.row.batch >= 1 ==> Context(s.row.runId, s.row.batch) in known)
  }

  lemma QuietStep(config: PublicationConfig, w: Warehouse, known: set<Context>, owner: Option<Context>,
                  left: nat, s: Statement)
    requires Safe(config, w, known, owner) && Quiet(s, known)
    ensures var p := Step(w, left, s);
            Safe(config, p.w, known, owner) && p.w.session.publications == w.session.publications
  {
    if s.MergeAudit? { UpsertRows(w.session.validations, s.row); }
  }

  lemma {:induction false} QuietExec(config: PublicationConfig, w: Warehouse, known: set<Context>,
                                     owner: Option<Context>, left: nat, ss: seq<Statement>)
    requires Safe(config, w, known, owner) && forall s :: s in ss ==> Quiet(s, known)
    ensures var p := Exec(w, left, ss);
            Safe(config, p.w, known, owner) && p.w.session.publications == w.session.publications
    decreases |ss|
  {
    if ss != [] {
      QuietStep(config, w, known, owner, left, ss[0]);
      var p := Step(w, left, ss[0]);
      if p.done { QuietExec(config, p.w, known, owner, p.left, ss[1..]); }
    }
  }

  lemma {:induction false} StagesOnly(publications: seq<PublicationRule>, ctx: Context)
    ensures forall s :: s in StageStatements(publications, ctx) ==> s.StageView?
  {
    if publications != [] { StagesOnly(publications[1..], ctx); }
  }

  // ---- what a completed build leaves in staging ------------------------------------------

  lemma {:induction false} StagesAccumulate(w: Warehouse, left: nat, publications: seq<PublicationRule>, ctx: Context)
    requires w.staging.Some? && w.durable == w.session
    ensures var p := Exec(w, left, StageStatements(publications, ctx));
            p.done ==> p.w == w.(staging := Some(PutViews(w.staging.value, publications, ctx, StagedName)))
    decreases |publications|
  {
    if publications != [] {
      var s := StageStatements(publications, ctx);
      assert s[1..] == StageStatements(publications[1..], ctx);
      var p := Step(w, left, s[0]);
      if p.done { StagesAccumulate(p.w, p.left, publications[1..], ctx); }
    }
  }

  lemma BuildStages(config: PublicationConfig, w: Warehouse, left: nat, ctx: Context)
    ensures var p := Exec(w, left, BuildStatements(config, ctx));
            p.done ==> p.w == Commit(w).(staging := Some(ViewSet(config, ctx)))
  {
    var middle := StageStatements(config.publications, ctx);
    var last := [StageView(STATUS_VIEW, StatusView)];
    var all := BuildStatements(config, ctx);
    assert all[0] == ReplaceStaging && all[1..] == middle + last;
    var p := Step(w, left, ReplaceStaging);
    if p.done {
      ExecSplit(p.w, p.left, middle, last);
      StagesAccumulate(p.w, p.left, config.publications, ctx);
      var q := Exec(p.w, p.left, middle);
      if q.done { assert last[1..] == []; }
    }
  }

  // ---- one promotion ---------------------------------------------------------------------

  // What the gates established about the publication rows, for the rest of the call.
  ghost predicate Cleared(rows: seq<PublicationRow>, ctx: Context) {
    && (forall p :: p in rows && p.status == Published ==> p.batch <= ctx.batch)
    && (forall p :: p in rows && p.runId == ctx.runId ==> p.batch == ctx.batch)
  }

  lemma GatesClear(t: Tables, known: set<Context>, owner: Option<Context>, ctx: Context)
    requires SafeTables(t, known, owner) && Gates(t, ctx).Go?
    ensures Cleared(t.publications, ctx) && ctx in known
    ensures Gates(t, ctx).insert ==> forall p :: p in t.publications ==> p.runId != ctx.runId
  {
    AuditOfIsARow(t.validations, ctx.runId);
    var found := PublicationOf(t.publications, ctx.runId);
    if found.Some? {
      forall p | p in t.publications && p.runId == ctx.runId ensures p == found.value {
      }
    }
  }

  lemma InsertStep(config: PublicationConfig, w: Warehouse, known: set<Context>, owner: Option<Context>,
                   left: nat, ctx: Context)
    requires Safe(config, w, known, owner) && Cleared(w.session.publications, ctx)
    requires forall p :: p in w.session.publications ==> p.runId != ctx.runId
    ensures var p := Step(w, left, InsertPending(ctx));
            Safe(config, p.w, known, owner) && Cleared(p.w.session.publications, ctx)
  {
  }

  lemma SwapStep(config: PublicationConfig, w: Warehouse, known: set<Context>, owner: Option<Context>,
                 left: nat, ctx: Context)
    requires Safe(config, w, known, owner) && Cleared(w.session.publications, ctx) && ctx in known
    requires w.staging == Some(ViewSet(config, ctx)) && w.durable == w.session
    ensures var p := Step(w, left, SwapSchemas);
            if p.done then p.w == w.(analytics := w.staging, staging := w.analytics)
                           && Safe(config, p.w, known, Some(ctx))
            else Safe(config, p.w, known, owner)
  {
  }

  lemma {:induction false} MarkedRows(rows: seq<PublicationRow>, runId: string)
    ensures |Marked(rows, runId)| == |rows|
    ensures forall i :: 0 <= i < |rows| ==>
              Marked(rows, runId)[i] == if rows[i].runId == runId then rows[i].(status := Published) else rows[i]
  {
    if rows != [] { MarkedRows(rows[1..], runId); }
  }

  lemma MarkStep(config: PublicationConfig, w: Warehouse, known: set<Context>, left: nat, ctx: Context)
    requires Safe(config, w, known, Some(ctx)) && Cleared(w.session.publications, ctx)
    ensures Safe(config, Step(w, left, MarkPublished(ctx.runId)).w, known, Some(ctx))
  {
    MarkedUnique(w.session.publications, ctx.runId);
    MarkedBelow(w.session.publications, ctx);
    PublishedStayMarked(w.session.publications, ctx.runId);
  }

  lemma MarkedUnique(rows: seq<PublicationRow>, runId: string)
    requires UniqueRuns(rows)
    ensures UniqueRuns(Marked(rows, runId))
  {
    MarkedRows(rows, runId);
    forall i, j | 0 <= i < j < |rows| ensures Marked(rows, runId)[i].runId != Marked(rows, runId)[j].runId {
      assert rows[i].runId != rows[j].runId;
    }
  }

  lemma MarkedBelow(rows: seq<PublicationRow>, ctx: Context)
    requires Cleared(rows, ctx)
    ensures Below(Marked(rows, ctx.runId), Some(ctx))
  {
    MarkedRows(rows, ctx.runId);
    forall p | p in Marked(rows, ctx.runId) && p.status == Published ensures p.batch <= ctx.batch {
      var i :| 0 <= i < |rows| && Marked(rows, ctx.runId)[i] == p;
      assert rows[i] in rows;
    }
  }

  lemma PublishedStayMarked(rows: seq<PublicationRow>, runId: string)
    ensures forall p :: p in rows && p.status == Published ==> p in Marked(rows, runId)
  {
    MarkedRows(rows, runId);
    forall p | p in rows && p.status == Published ensures p in Marked(rows, runId) {
      var i :| 0 <= i < |rows| && rows[i] == p;
      assert Marked(rows, runId)[i] == p;
    }
  }

  lemma RecordSafe(config: PublicationConfig, w: Warehouse, known: set<Context>, left: nat, ctx: Context)
    requires Safe(config, w, known, Some(ctx)) && Cleared(w.session.publications, ctx)
    ensures Safe(config, Exec(w, left, RecordStatements(ctx)).w, known, Some(ctx))
  {
    var s := RecordStatements(ctx);
    MarkStep(config, w, known, left, ctx);
    var p := Step(w, left, s[0]);
    if p.done { QuietExec(config, p.w, known, Some(ctx), p.left, s[1..]); }
  }

  /** Up to the swap, stopping anywhere leaves the live schema and the published rows alone;
      completing leaves the run's whole view set in staging. */
  lemma BeforeSwapSafe(config: PublicationConfig, w: Warehouse, known: set<Context>, owner: Option<Context>,
                       left: nat, ctx: Context, insert: bool)
    requires Safe(config, w, known, owner) && Cleared(w.session.publications, ctx)
    requires insert ==> forall p :: p in w.session.publications ==> p.runId != ctx.runId
    ensures var p := Exec(w, left, BeforeSwap(config, ctx, insert));
            && Safe(config, p.w, known, owner)
            && Cleared(p.w.session.publications, ctx)
            && (p.done ==> p.w.staging == Some(ViewSet(config, ctx)) && p.w.durable == p.w.session
                           && p.w.analytics == (if w.analytics.None? then Some(map[]) else w.analytics))
  {
    var build := BuildStatements(config, ctx);
    StagesOnly(config.publications, ctx);
    var first := if insert then [InsertPending(ctx)] else [];
    var p := Exec(w, left, first);
    assert BeforeSwap(config, ctx, insert) == first + (build + [EnsureAnalytics]);
    ExecSplit(w, left, first, build + [EnsureAnalytics]);
    if insert {
      InsertStep(config, w, known, owner, left, ctx);
      assert first[1..] == [];
    }
    if p.done {
      QuietExec(config, p.w, known, owner, p.left, build + [EnsureAnalytics]);
      BuiltBeforeSwap(config, p.w, p.left, ctx);
    }
  }

  lemma BuiltBeforeSwap(config: PublicationConfig, w: Warehouse, left: nat, ctx: Context)
    ensures var p := Exec(w, left, BuildStatements(config, ctx) + [EnsureAnalytics]);
            p.done ==> && p.w.staging == Some(ViewSet(config, ctx)) && p.w.durable == p.w.session
                       && p.w.analytics == (if w.analytics.None? then Some(map[]) else w.analytics)
  {
    ExecSplit(w, left, BuildStatements(config, ctx), [EnsureAnalytics]);
    BuildStages(config, w, left, ctx);
    assert [EnsureAnalytics][1..] == [];
  }

  lemma ProgramSafe(config: PublicationConfig, w: Warehouse, known: set<Context>, owner: Option<Context>,
                    left: nat, ctx: Context, insert: bool) returns (owner': Option<Context>)
    requires Safe(config, w, known, owner) && Cleared(w.session.publications, ctx) && ctx in known
    requires insert ==> forall p :: p in w.session.publications ==> p.runId != ctx.runId
    ensures Safe(config, Exec(w, left, Program(config, ctx, insert)).w, known, owner')
    ensures owner' == owner || owner' == Some(ctx)
  {
    var before := BeforeSwap(config, ctx, insert);
    var after := [SwapSchemas] + RecordStatements(ctx);
    ExecSplit(w, left, before, after);
    BeforeSwapSafe(config, w, known, owner, left, ctx, insert);
    var p := Exec(w, left, before);
    owner' := owner;
    if p.done {
      SwapStep(config, p.w, known, owner, p.left, ctx);
      var q := Step(p.w, p.left, SwapSchemas);
      assert after[1..] == RecordStatements(ctx);
      if q.done {
        owner' := Some(ctx);
        RecordSafe(config, q.w, known, q.left, ctx);
      }
    }
  }

  lemma EnsureQuiet(known: set<Context>)
    ensures forall s :: s in [EnsureObject, EnsureObject] ==> Quiet(s, known)
  {
  }

  lemma NextSafe(config: PublicationConfig, w: Warehouse, known: set<Context>, owner: Option<Context>, e: Event)
    returns (owner': Option<Context>)
    requires Safe(config, w, known, owner)
    requires e.Record? && e.report.passed && e.report.batch >= 1 ==> Context(e.report.runId, e.report.batch) in known
    ensures Safe(config, Next(config, w, e), known, owner')
    ensures owner' == owner || (e.Promote? && owner' == Some(e.ctx) && Authorised(w.session.validations, e.ctx))
  {
    owner' := owner;
    match e
    case Promote(ctx, report, lives) =>
      EnsureQuiet(known);
      QuietExec(config, w, known, owner, lives, [EnsureObject, EnsureObject]);
      var p := Exec(w, lives, [EnsureObject, EnsureObject]);
      if ReportVerdict(ctx, report).None? && p.done && Gates(p.w.session, ctx).Go? {
        assert p.w.session == w.session;
        GatesClear(p.w.session, known, owner, ctx);
        owner' := ProgramSafe(config, p.w, known, owner, p.left, ctx, Gates(p.w.session, ctx).insert);
      }
    case Record(report, lives) => QuietExec(config, w, known, owner, lives, AuditStatements(report));
    case CloseConnection =>
  }

  lemma SafeMonotone(config: PublicationConfig, w: Warehouse, known: set<Context>, more: set<Context>,
                     owner: Option<Context>)
    requires Safe(config, w, known, owner) && known <= more
    ensures Safe(config, w, more, owner)
  {
  }

  // The runs some promotion was called for while their audit row, as that call read it, said
  // passed at that batch.
  ghost function Admitted(config: PublicationConfig, events: seq<Event>): set<Context> {
    set n | 0 <= n < |events| && AdmittedAt(config, events, n) :: events[n].ctx
  }

  ghost predicate AdmittedAt(config: PublicationConfig, events: seq<Event>, n: nat)
    requires n < |events|
  {
    events[n].Promote? && Authorised(RunAll(config, events[..n]).session.validations, events[n].ctx)
  }

  lemma AdmittedMore(config: PublicationConfig, front: seq<Event>, e: Event)
    ensures Admitted(config, front) <= Admitted(config, front + [e])
    ensures e.Promote? && Authorised(RunAll(config, front).session.validations, e.ctx)
        ==> e.ctx in Admitted(config, front + [e])
  {
    var all := front + [e];
    forall n | 0 <= n < |front| && AdmittedAt(config, front, n) ensures front[n].ctx in Admitted(config, all) {
      assert all[..n] == front[..n] && AdmittedAt(config, all, n);
    }
    assert all[..|front|] == front && all[|front|] == e;
    if e.Promote? && Authorised(RunAll(config, front).session.validations, e.ctx) {
      assert AdmittedAt(config, all, |front|);
    }
  }

  lemma {:induction false} ReachableSafe(config: PublicationConfig, events: seq<Event>)
    returns (owner: Option<Context>)
    ensures Safe(config, RunAll(config, events), Recorded(events), owner)
    ensures owner.Some? ==> owner.value in Admitted(config, events)
  {
    if events == [] {
      owner := None;
    } else {
      var front, e := events[..|events| - 1], events[|events| - 1];
      assert events == front + [e];
      owner := ReachableSafe(config, front);
      SafeMonotone(config, RunAll(config, front), Recorded(front), Recorded(events), owner);
      AdmittedMore(config, front, e);
      owner := NextSafe(config, RunAll(config, front), Recorded(events), owner, e);
    }
  }
}
