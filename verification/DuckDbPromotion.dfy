/** PromotionService.promote and DuckDbAuditWriter.record_validation, and the
    function that specifies a promotion. */
module DuckDbPromotion {
  import opened Models
  import opened DuckDb

  const STATUS_VIEW := "current_validation_status"

  function StatusName(config: PublicationConfig): string {
    Lower(config.analyticsSchema) + "." + STATUS_VIEW
  }

  // The schema a publication's name gives, if it gives one.
  function OwnSchema(p: PublicationRule): Option<string> {
    match SchemaOf(p.view)
    case None => None
    case Some(schema) => Some(Lower(schema))
  }

  function FullName(p: PublicationRule): string {
    (if OwnSchema(p).Some? then OwnSchema(p).value else MAIN) + "." + Lower(LastPart(p.view))
  }

  function ViewStatements(publications: seq<PublicationRule>, ctx: Context): seq<Statement> {
    if publications == [] then []
    else OneView(publications[0], ctx) + ViewStatements(publications[1..], ctx)
  }

  function OneView(p: PublicationRule, ctx: Context): seq<Statement> {
    (if OwnSchema(p).Some? then [EnsureSchema(OwnSchema(p).value)] else [])
    + [ReplaceView(FullName(p), ViewOf(p, ctx))]
  }

  function PublishStatements(config: PublicationConfig, ctx: Context, at: int): seq<Statement> {
    ViewStatements(config.publications, ctx)
    + [InsertPublication(PublicationRow(ctx.runId, ctx.batch, at)),
       ReplaceView(StatusName(config), StatusView)]
  }

  lemma NextView(publications: seq<PublicationRule>, i: nat, ctx: Context, last: seq<Statement>)
    requires i < |publications|
    ensures var own, view := OwnSchema(publications[i]),
              ReplaceView(FullName(publications[i]), ViewOf(publications[i], ctx));
            var rest := ViewStatements(publications[i + 1..], ctx) + last;
            ViewStatements(publications[i..], ctx) + last
            == if own.Some? then [EnsureSchema(own.value)] + ([view] + rest) else [view] + rest
  {
    assert publications[i..][1..] == publications[i + 1..];
  }

  datatype Verdict = Rejected(reason: Reason) | AlreadyPublished | Go

  // Gates 2 to 4, inside the transaction.
  function Gates(d: Database, ctx: Context): Verdict {
    if !Authorised(d.validations, ctx) then Rejected(NoAuditRow)
    else if MaxBatch(d.publications).Some? && MaxBatch(d.publications).value > ctx.batch
    then Rejected(NewerBatch)
    else
      match PublicationOf(d.publications, ctx.runId)
      case None => Go
      case Some(row) =>
        if row.batch != ctx.batch then Rejected(OtherBatch) else AlreadyPublished
  }

  datatype Outcome = Outcome(d: Database, result: Result)

  function Promotion(config: PublicationConfig, d: Database, left: nat, ctx: Context,
                     report: ValidationReport, at: int): Outcome {
    if ReportVerdict(ctx, report).Some?
    then Outcome(d, Refused(ReportVerdict(ctx, report).value))
    else if left < 3 then Outcome(d, Interrupted)
    else
      match Gates(d, ctx)
      case Rejected(reason) => Outcome(d, Refused(reason))
      case AlreadyPublished =>
        Outcome(d, if left > 3 then Unchanged else Interrupted)
      case Go =>
        var p := Exec(d, left - 3, PublishStatements(config, ctx, at));
        if p.done && p.left > 0 then Outcome(p.d, Promoted)
        else Outcome(d, Interrupted)
  }

  function Audited(d: Database, left: nat, report: ValidationReport): Progress {
    Exec(d, left, [EnsureObject, EnsureObject, UpsertAudit(AuditRow(report.runId, report.batch, report.passed))])
  }

  class DuckDbAuditWriter {
    const connection: Connection

    constructor (connection: Connection)
      ensures this.connection == connection
    {
      this.connection := connection;
    }

    method RecordValidation(report: ValidationReport) returns (p: Progress)
      requires connection.transaction.None?
      modifies connection
      ensures p == Audited(old(connection.durable), old(connection.left), report)
      ensures connection.durable == p.d && connection.left == p.left && connection.transaction.None?
    {
      var audit := UpsertAudit(AuditRow(report.runId, report.batch, report.passed));
      assert [EnsureObject, EnsureObject, audit] == [EnsureObject] + ([EnsureObject] + [audit]);
      ExecCons(connection.durable, connection.left, EnsureObject, [EnsureObject] + [audit]);
      p := connection.Execute(EnsureObject);
      if !p.done { return; }
      ExecCons(connection.durable, connection.left, EnsureObject, [audit]);
      p := connection.Execute(EnsureObject);
      if !p.done { return; }
      assert [audit][1..] == [];
      p := connection.Execute(audit);
    }
  }

  class PromotionService {
    const connection: Connection
    const config: PublicationConfig

    constructor (connection: Connection, config: PublicationConfig)
      ensures this.connection == connection && this.config == config
    {
      this.connection, this.config := connection, config;
    }

    method Promote(ctx: Context, report: ValidationReport, at: int) returns (result: Result)
      requires connection.transaction.None?
      modifies connection
      ensures Outcome(connection.durable, result)
           == Promotion(config, old(connection.durable), old(connection.left), ctx, report, at)
      ensures connection.transaction.None?
    {
      if ReportVerdict(ctx, report).Some? {
        return Refused(ReportVerdict(ctx, report).value);
      }
      var p := connection.Execute(EnsureObject);
      if !p.done { return Interrupted; }
      p := connection.Execute(EnsureObject);
      if !p.done { return Interrupted; }
      var began := connection.Begin();
      if !began { return Interrupted; }
      result := InTransaction(ctx, at);
      if result.Interrupted? || result.Refused? {
        connection.Rollback();
      }
    }

    // The body of the `try`. Anything but Unchanged and Promoted is an exception.
    method InTransaction(ctx: Context, at: int) returns (result: Result)
      requires connection.transaction == Some(connection.durable)
      modifies connection
      ensures var d := old(connection.durable);
              var q := Exec(d, old(connection.left), PublishStatements(config, ctx, at));
              match Gates(d, ctx)
              case Rejected(reason) => result == Refused(reason) && connection.durable == d
              case AlreadyPublished =>
                connection.durable == d
                && (if old(connection.left) > 0
                    then result == Unchanged && connection.transaction.None?
                    else result == Interrupted)
              case Go =>
                if q.done && q.left > 0
                then result == Promoted && connection.durable == q.d
                     && connection.transaction.None?
                else result == Interrupted && connection.durable == d
    {
      var audit := AuditOf(connection.durable.validations, ctx.runId);
      if audit != Some(AuditRow(ctx.runId, ctx.batch, true)) {
        return Refused(NoAuditRow);
      }
      var latest := MaxBatch(connection.durable.publications);
      if latest.Some? && latest.value > ctx.batch {
        return Refused(NewerBatch);
      }
      var existing := PublicationOf(connection.durable.publications, ctx.runId);
      if existing.Some? {
        if existing.value.batch != ctx.batch {
          return Refused(OtherBatch);
        }
        var kept := connection.Commit();
        return if kept then Unchanged else Interrupted;
      }
      var p := ExecutePublish(ctx, at);
      if !p.done { return Interrupted; }
      var committed := connection.Commit();
      result := if committed then Promoted else Interrupted;
    }

    method ExecutePublish(ctx: Context, at: int) returns (p: Progress)
      requires connection.transaction.Some?
      modifies connection
      ensures p == Exec(old(connection.transaction).value, old(connection.left), PublishStatements(config, ctx, at))
      ensures connection.transaction == Some(p.d) && connection.left == p.left
      ensures connection.durable == old(connection.durable)
    {
      var row := PublicationRow(ctx.runId, ctx.batch, at);
      var status := ReplaceView(StatusName(config), StatusView);
      ghost var last := [InsertPublication(row), status];
      p := Progress(connection.transaction.value, connection.left, true);
      for i := 0 to |config.publications|
        invariant p.done && connection.transaction == Some(p.d) && connection.left == p.left
        invariant connection.durable == old(connection.durable)
        invariant Exec(old(connection.transaction).value, old(connection.left), PublishStatements(config, ctx, at))
               == Exec(p.d, p.left, ViewStatements(config.publications[i..], ctx) + last)
      {
        var publication := config.publications[i];
        var replace := ReplaceView(FullName(publication), ViewOf(publication, ctx));
        ghost var rest := ViewStatements(config.publications[i + 1..], ctx) + last;
        NextView(config.publications, i, ctx, last);
        if OwnSchema(publication).Some? {
          var ensure := EnsureSchema(OwnSchema(publication).value);
          ExecCons(p.d, p.left, ensure, [replace] + rest);
          p := connection.Execute(ensure);
          if !p.done { return; }
        }
        ExecCons(p.d, p.left, replace, rest);
        p := connection.Execute(replace);
        if !p.done { return; }
      }
      assert ViewStatements(config.publications[|config.publications|..], ctx) + last
          == [InsertPublication(row)] + [status];
      ExecCons(p.d, p.left, InsertPublication(row), [status]);
      p := connection.Execute(InsertPublication(row));
      if !p.done { return; }
      assert [status][1..] == [];
      p := connection.Execute(status);
    }
  }
}
