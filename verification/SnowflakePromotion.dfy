/** SnowflakePromotionService.promote and SnowflakeAuditWriter.record_validation,
    statement by statement, and the functions that specify them. */
module SnowflakePromotion {
  import opened Models
  import opened Snowflake

  const STATUS_VIEW := "CURRENT_VALIDATION_STATUS"

  // The name a publication gets inside the analytics schema.
  function StagedName(p: PublicationRule): string { Upper(LastPart(p.view)) }

  function StageStatements(publications: seq<PublicationRule>, ctx: Context): seq<Statement> {
    if publications == [] then []
    else [StageView(StagedName(publications[0]), ViewOf(publications[0], ctx))]
         + StageStatements(publications[1..], ctx)
  }

  function BuildStatements(config: PublicationConfig, ctx: Context): seq<Statement> {
    [ReplaceStaging] + StageStatements(config.publications, ctx) + [StageView(STATUS_VIEW, StatusView)]
  }

  function RecordStatements(ctx: Context): seq<Statement> {
    [MarkPublished(ctx.runId), DropStaging, CommitWork]
  }

  function BeforeSwap(config: PublicationConfig, ctx: Context, insert: bool): seq<Statement> {
    (if insert then [InsertPending(ctx)] else []) + BuildStatements(config, ctx) + [EnsureAnalytics]
  }

  // Everything promotion executes once its four gates are open.
  function Program(config: PublicationConfig, ctx: Context, insert: bool): seq<Statement> {
    BeforeSwap(config, ctx, insert) + ([SwapSchemas] + RecordStatements(ctx))
  }

  datatype Verdict = Rejected(reason: Reason) | AlreadyPublished | Go(insert: bool)

  // Gates 2 to 4, read over one connection's view of the control tables.
  function Gates(t: Tables, ctx: Context): Verdict {
    if !Authorised(t.validations, ctx) then Rejected(NoAuditRow)
    else if MaxPublished(t.publications).Some? && MaxPublished(t.publications).value > ctx.batch
    then Rejected(NewerBatch)
    else
      match PublicationOf(t.publications, ctx.runId)
      case None => Go(true)
      case Some(row) =>
        if row.batch != ctx.batch then Rejected(OtherBatch)
        else if row.status == Published then AlreadyPublished
        else Go(false)
  }

  datatype Outcome = Outcome(w: Warehouse, left: nat, result: Result)

  function Promotion(config: PublicationConfig, w: Warehouse, left: nat,
                     ctx: Context, report: ValidationReport): Outcome {
    if ReportVerdict(ctx, report).Some?
    then Outcome(w, left, Refused(ReportVerdict(ctx, report).value))
    else
      var p := Exec(w, left, [EnsureObject, EnsureObject]);
      if !p.done then Outcome(p.w, p.left, Interrupted)
      else
        match Gates(p.w.session, ctx)
        case Rejected(reason) => Outcome(p.w, p.left, Refused(reason))
        case AlreadyPublished => Outcome(p.w, p.left, Unchanged)
        case Go(insert) =>
          var q := Exec(p.w, p.left, Program(config, ctx, insert));
          Outcome(q.w, q.left, if q.done then Promoted else Interrupted)
  }

  function AuditStatements(report: ValidationReport): seq<Statement> {
    [EnsureObject, EnsureObject,
     MergeAudit(AuditRow(report.runId, report.batch, report.passed)), CommitWork]
  }

  class SnowflakeAuditWriter {
    const gateway: Gateway

    constructor (gateway: Gateway)
      ensures this.gateway == gateway
    {
      this.gateway := gateway;
    }

    method RecordValidation(report: ValidationReport) returns (p: Progress)
      modifies gateway
      ensures p == Exec(old(gateway.w), old(gateway.left), AuditStatements(report))
      ensures gateway.w == p.w && gateway.left == p.left
    {
      var s := AuditStatements(report);
      for i := 0 to 4
        invariant Exec(old(gateway.w), old(gateway.left), s) == Exec(gateway.w, gateway.left, s[i..])
      {
        assert s[i..][0] == s[i] && s[i..][1..] == s[i + 1..];
        p := gateway.Execute(s[i]);
        if !p.done { return; }
      }
      p := Progress(gateway.w, gateway.left, true);
    }
  }

  class SnowflakePromotionService {
    const gateway: Gateway
    const config: PublicationConfig

    constructor (gateway: Gateway, config: PublicationConfig)
      ensures this.gateway == gateway && this.config == config
    {
      this.gateway, this.config := gateway, config;
    }

    method EnsureControlTables() returns (p: Progress)
      modifies gateway
      ensures p == Exec(old(gateway.w), old(gateway.left), [EnsureObject, EnsureObject])
      ensures gateway.w == p.w && gateway.left == p.left
    {
      assert [EnsureObject, EnsureObject][1..] == [EnsureObject];
      p := gateway.Execute(EnsureObject);
      if p.done { p := gateway.Execute(EnsureObject); }
    }

    method BuildStagedViews(ctx: Context) returns (p: Progress)
      modifies gateway
      ensures p == Exec(old(gateway.w), old(gateway.left), BuildStatements(config, ctx))
      ensures gateway.w == p.w && gateway.left == p.left
    {
      ghost var all := BuildStatements(config, ctx);
      ghost var views := StageStatements(config.publications, ctx);
      ghost var last := [StageView(STATUS_VIEW, StatusView)];
      assert all[1..] == views + last;
      p := gateway.Execute(ReplaceStaging);
      if !p.done { return; }
      for i := 0 to |config.publications|
        invariant p.done && gateway.w == p.w && gateway.left == p.left
        invariant Exec(old(gateway.w), old(gateway.left), all)
               == Exec(p.w, p.left, StageStatements(config.publications[i..], ctx) + last)
      {
        ghost var rest := StageStatements(config.publications[i..], ctx) + last;
        assert config.publications[i..][1..] == config.publications[i + 1..];
        assert rest[1..] == StageStatements(config.publications[i + 1..], ctx) + last;
        p := gateway.Execute(StageView(StagedName(config.publications[i]),
                                       ViewOf(config.publications[i], ctx)));
        if !p.done { return; }
      }
      assert StageStatements(config.publications[|config.publications|..], ctx) + last == last;
      p := gateway.Execute(StageView(STATUS_VIEW, StatusView));
    }

    method Promote(ctx: Context, report: ValidationReport) returns (result: Result)
      modifies gateway
      ensures Outcome(gateway.w, gateway.left, result)
           == Promotion(config, old(gateway.w), old(gateway.left), ctx, report)
    {
      if ReportVerdict(ctx, report).Some? {
        return Refused(ReportVerdict(ctx, report).value);
      }
      var p := EnsureControlTables();
      if !p.done { return Interrupted; }
      // The four gates. Each query reads this connection's view of the tables.
      var audit := AuditOf(gateway.w.session.validations, ctx.runId);
      if audit != Some(AuditRow(ctx.runId, ctx.batch, true)) {
        return Refused(NoAuditRow);
      }
      var latest := MaxPublished(gateway.w.session.publications);
      if latest.Some? && latest.value > ctx.batch {
        return Refused(NewerBatch);
      }
      var existing := PublicationOf(gateway.w.session.publications, ctx.runId);
      if existing.Some? {
        if existing.value.batch != ctx.batch { return Refused(OtherBatch); }
        if existing.value.status == Published { return Unchanged; }
      }
      result := Publish(ctx, existing.None?);
    }

    method Publish(ctx: Context, insert: bool) returns (result: Result)
      modifies gateway
      ensures var q := Exec(old(gateway.w), old(gateway.left), Program(config, ctx, insert));
              gateway.w == q.w && gateway.left == q.left
              && result == if q.done then Promoted else Interrupted
    {
      ghost var build := BuildStatements(config, ctx);
      ghost var tail := [EnsureAnalytics, SwapSchemas] + RecordStatements(ctx);
      ProgramParts(config, ctx, insert);
      if insert {
        assert ([InsertPending(ctx)] + (build + tail))[1..] == build + tail;
        var p := gateway.Execute(InsertPending(ctx));
        if !p.done { return Interrupted; }
      }
      assert !insert ==> Program(config, ctx, insert) == build + tail;
      ExecSplit(gateway.w, gateway.left, build, tail);
      var p := BuildStagedViews(ctx);
      if !p.done { return Interrupted; }
      result := SwapAndRecord(ctx);
    }

    method SwapAndRecord(ctx: Context) returns (result: Result)
      modifies gateway
      ensures var q := Exec(old(gateway.w), old(gateway.left),
                            [EnsureAnalytics, SwapSchemas] + RecordStatements(ctx));
              gateway.w == q.w && gateway.left == q.left
              && result == if q.done then Promoted else Interrupted
    {
      ghost var s := [EnsureAnalytics, SwapSchemas] + RecordStatements(ctx);
      ghost var target := Exec(gateway.w, gateway.left, s);
      assert s[1..] == [SwapSchemas] + RecordStatements(ctx);
      var p := gateway.Execute(EnsureAnalytics);
      if !p.done { return Interrupted; }
      assert target == Exec(p.w, p.left, s[1..]);
      assert s[1..][1..] == RecordStatements(ctx);
      p := gateway.Execute(SwapSchemas);
      if !p.done { return Interrupted; }
      assert target == Exec(p.w, p.left, RecordStatements(ctx));
      assert RecordStatements(ctx)[1..] == [DropStaging, CommitWork];
      p := gateway.Execute(MarkPublished(ctx.runId));
      if !p.done { return Interrupted; }
      assert target == Exec(p.w, p.left, [DropStaging, CommitWork]);
      assert [DropStaging, CommitWork][1..] == [CommitWork];
      p := gateway.Execute(DropStaging);
      if !p.done { return Interrupted; }
      assert target == Exec(p.w, p.left, [CommitWork]);
      p := gateway.Execute(CommitWork);
      result := if p.done then Promoted else Interrupted;
    }
  }

  lemma ProgramParts(config: PublicationConfig, ctx: Context, insert: bool)
    ensures Program(config, ctx, insert)
         == (if insert then [InsertPending(ctx)] else [])
            + (BuildStatements(config, ctx) + ([EnsureAnalytics, SwapSchemas] + RecordStatements(ctx)))
  {
  }
}
