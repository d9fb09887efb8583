/** What operators may rely on from DuckDB publication, stated over every run. */
module DuckDbTheorems {
  import opened Models
  import opened DuckDb
  import opened DuckDbPromotion

  datatype Event =
    | Promote(ctx: Context, report: ValidationReport, at: int, lives: nat)
    | Record(report: ValidationReport, lives: nat)

  // A database nothing was published in, with the schemas it has: its built-in one, the
  // control schema, and whatever else was created before.
  function Fresh(schemas: set<string>): Database { Database(schemas, map[], [], []) }

  function Next(config: PublicationConfig, d: Database, e: Event): Database {
    match e
    case Promote(ctx, report, at, lives) => Promotion(config, d, lives, ctx, report, at).d
    case Record(report, lives) => Audited(d, lives, report).d
  }

  function RunAll(config: PublicationConfig, schemas: set<string>, events: seq<Event>): Database {
    if events == [] then Fresh(schemas)
    else Next(config, RunAll(config, schemas, events[..|events| - 1]), events[|events| - 1])
  }

  ghost function Recorded(events: seq<Event>): set<Context> {
    set e | e in events && e.Record? && e.report.passed && e.report.batch >= 1 ::
      Context(e.report.runId, e.report.batch)
  }

  // All the views of one run at one batch, and the publication log.
  function ViewSet(config: PublicationConfig, ctx: Context): Schema {
    PutViews(map[], config.publications, ctx, FullName)[StatusName(config) := StatusView]
  }

  // ---- one transaction ------------------------------------------------------------------

  // The schemas the publications create.
  function SchemasOf(publications: seq<PublicationRule>): set<string> {
    if publications == [] then {}
    else
      (if OwnSchema(publications[0]).Some? then {OwnSchema(publications[0]).value} else {})
      + SchemasOf(publications[1..])
  }

  lemma OneViewReplaced(d: Database, left: nat, p: PublicationRule, ctx: Context)
    ensures var r := Exec(d, left, OneView(p, ctx));
            && r.d.publications == d.publications && r.d.validations == d.validations
            && (r.done ==>
                  r.d == d.(schemas := d.schemas + SchemasOf([p]), views := d.views[FullName(p) := ViewOf(p, ctx)]))
  {
    var replace := ReplaceView(FullName(p), ViewOf(p, ctx));
    assert [p][1..] == [] && [replace][1..] == [];
    if OwnSchema(p).Some? {
      ExecCons(d, left, EnsureSchema(OwnSchema(p).value), [replace]);
    } else {
      assert OneView(p, ctx) == [replace];
    }
  }

  lemma {:induction false} ViewsReplaced(d: Database, left: nat, publications: seq<PublicationRule>, ctx: Context)
    ensures var p := Exec(d, left, ViewStatements(publications, ctx));
            && p.d.publications == d.publications && p.d.validations == d.validations
            && (p.done ==> p.d == d.(schemas := d.schemas + SchemasOf(publications),
                                     views := PutViews(d.views, publications, ctx, FullName)))
    decreases |publications|
  {
    if publications != [] {
      var one := OneView(publications[0], ctx);
      ExecSplit(d, left, one, ViewStatements(publications[1..], ctx));
      OneViewReplaced(d, left, publications[0], ctx);
      assert [publications[0]][1..] == [];
      var p := Exec(d, left, one);
      if p.done { ViewsReplaced(p.d, p.left, publications[1..], ctx); }
    }
  }

  // What a completed publication leaves.
  function PublishedDatabase(config: PublicationConfig, d: Database, ctx: Context, at: int): Database {
    Database(d.schemas + SchemasOf(config.publications),
             PutViews(d.views, config.publications, ctx, FullName)[StatusName(config) := StatusView],
             d.validations, d.publications + [PublicationRow(ctx.runId, ctx.batch, at)])
  }

  lemma PublishEffect(config: PublicationConfig, d: Database, left: nat, ctx: Context, at: int)
    ensures var p := Exec(d, left, PublishStatements(config, ctx, at));
            p.done ==> p.d == PublishedDatabase(config, d, ctx, at)
  {
    var insert := InsertPublication(PublicationRow(ctx.runId, ctx.batch, at));
    var status := ReplaceView(StatusName(config), StatusView);
    ViewsReplaced(d, left, config.publications, ctx);
    ExecSplit(d, left, ViewStatements(config.publications, ctx), [insert, status]);
    var p := Exec(d, left, ViewStatements(config.publications, ctx));
    if p.done {
      assert [insert, status] == [insert] + [status];
      ExecCons(p.d, p.left, insert, [status]);
      assert [status][1..] == [];
    }
  }

  /** A promotion that any statement, the commit included, cuts short leaves the database
      exactly as it was. A completed one replaces every view, creates the schemas of the
      publications, adds its row and touches nothing else. */
  lemma AllOrNothing(config: PublicationConfig, d: Database, left: nat, ctx: Context,
                     report: ValidationReport, at: int)
    ensures var o := Promotion(config, d, left, ctx, report, at);
            && (!o.result.Promoted? ==> o.d == d)
            && (o.result.Promoted? ==> Authorised(d.validations, ctx) && o.d == PublishedDatabase(config, d, ctx, at))
  {
    if left >= 3 { PublishEffect(config, d, left - 3, ctx, at); }
  }

  lemma AuditOnly(d: Database, left: nat, report: ValidationReport)
    ensures var audit := AuditRow(report.runId, report.batch, report.passed);
            var p := Audited(d, left, report);
            if left >= 3 then p.done && p.d == d.(validations := Upsert(d.validations, audit))
            else !p.done && p.d == d
  {
    var audit := UpsertAudit(AuditRow(report.runId, report.batch, report.passed));
    assert [EnsureObject, EnsureObject, audit] == [EnsureObject] + ([EnsureObject] + [audit]);
    ExecCons(d, left, EnsureObject, [EnsureObject] + [audit]);
    if left > 0 {
      ExecCons(d, left - 1, EnsureObject, [audit]);
      assert [audit][1..] == [];
    }
  }

  // ---- whole runs -----------------------------------------------------------------------

  ghost predicate UniqueRuns(rows: seq<PublicationRow>) {
    forall i, j :: 0 <= i < j < |rows| ==> rows[i].runId != rows[j].runId
  }

  // `owner` is the run all views show; its row is the last one and carries the largest batch.
  ghost predicate Safe(config: PublicationConfig, d: Database, known: set<Context>, owner: Option<Context>) {
    && UniqueRuns(d.publications)
    && (forall r :: r in d.validations && r.passed && r.batch >= 1 ==> Context(r.runId, r.batch) in known)
    && (forall p :: p in d.publications ==> AuditOf(d.validations, p.runId).Some?)
    && match owner
       case None => d.views == map[] && d.publications == []
       case Some(ctx) =>
         && ctx in known
         && d.views == ViewSet(config, ctx)
         && d.publications != []
         && d.publications[|d.publications| - 1].runId == ctx.runId
         && d.publications[|d.publications| - 1].batch == ctx.batch
         && forall p :: p in d.publications ==> p.batch <= ctx.batch
  }

  lemma ViewsForget(config: PublicationConfig, owner: Option<Context>, ctx: Context)
    ensures var base := if owner.Some? then ViewSet(config, owner.value) else map[];
            PutViews(base, config.publications, ctx, FullName)[StatusName(config) := StatusView]
            == ViewSet(config, ctx)
  {
    var base: Schema := if owner.Some? then ViewSet(config, owner.value) else map[];
    var a := PutViews(base, config.publications, ctx, FullName);
    var b := PutViews(map[], config.publications, ctx, FullName);
    forall name | name != StatusName(config)
      ensures (name in a <==> name in b) && (name in a ==> a[name] == b[name])
    {
      if !exists p :: p in config.publications && FullName(p) == name {
        if owner.Some? { PutViewsLookup(map[], config.publications, owner.value, FullName, name); }
      }
      PutViewsForget(base, map[], config.publications, ctx, FullName, name);
    }
    assert a[StatusName(config) := StatusView] == b[StatusName(config) := StatusView];
  }

  lemma NextSafe(config: PublicationConfig, d: Database, known: set<Context>, owner: Option<Context>, e: Event)
    returns (owner': Option<Context>)
    requires Safe(config, d, known, owner)
    requires e.Record? && e.report.passed && e.report.batch >= 1 ==> Context(e.report.runId, e.report.batch) in known
    ensures Safe(config, Next(config, d, e), known, owner')
    ensures owner' == owner || (e.Promote? && owner' == Some(e.ctx) && Authorised(d.validations, e.ctx))
    ensures owner.Some? ==> owner'.Some? && owner.value.batch <= owner'.value.batch
  {
    owner' := owner;
    match e
    case Promote(ctx, report, at, lives) =>
      AllOrNothing(config, d, lives, ctx, report, at);
      if Promotion(config, d, lives, ctx, report, at).result.Promoted? {
        owner' := Some(ctx);
        PromotedSafe(config, d, known, owner, ctx, report, at, lives);
      }
    case Record(report, lives) =>
      AuditOnly(d, lives, report);
      AuditedSafe(config, d, known, owner, AuditRow(report.runId, report.batch, report.passed));
  }

  lemma PromotedSafe(config: PublicationConfig, d: Database, known: set<Context>, owner: Option<Context>,
                     ctx: Context, report: ValidationReport, at: int, lives: nat)
    requires Safe(config, d, known, owner) && Promotion(config, d, lives, ctx, report, at).result == Promoted
    ensures Safe(config, Promotion(config, d, lives, ctx, report, at).d, known, Some(ctx))
    ensures owner.Some? ==> owner.value.batch <= ctx.batch
  {
    AllOrNothing(config, d, lives, ctx, report, at);
    ViewsForget(config, owner, ctx);
    AuditOfIsARow(d.validations, ctx.runId);
  }

  lemma AuditedSafe(config: PublicationConfig, d: Database, known: set<Context>, owner: Option<Context>, row: AuditRow)
    requires Safe(config, d, known, owner) && (row.passed && row.batch >= 1 ==> Context(row.runId, row.batch) in known)
    ensures Safe(config, d.(validations := Upsert(d.validations, row)), known, owner)
  {
    UpsertRows(d.validations, row);
    forall p | p in d.publications ensures AuditOf(Upsert(d.validations, row), p.runId).Some? {
      UpsertThenRead(d.validations, row, p.runId);
    }
  }

  // The runs some promotion was called for while their audit row said passed at that batch.
  ghost function Admitted(config: PublicationConfig, schemas: set<string>, events: seq<Event>): set<Context> {
    set n | 0 <= n < |events| && AdmittedAt(config, schemas, events, n) :: events[n].ctx
  }

  ghost predicate AdmittedAt(config: PublicationConfig, schemas: set<string>, events: seq<Event>, n: nat)
    requires n < |events|
  {
    events[n].Promote? && Authorised(RunAll(config, schemas, events[..n]).validations, events[n].ctx)
  }

  lemma AdmittedMore(config: PublicationConfig, schemas: set<string>, front: seq<Event>, e: Event)
    ensures Admitted(config, schemas, front) <= Admitted(config, schemas, front + [e])
    ensures e.Promote? && Authorised(RunAll(config, schemas, front).validations, e.ctx)
            ==> e.ctx in Admitted(config, schemas, front + [e])
  {
    var all := front + [e];
    forall n | 0 <= n < |front| && AdmittedAt(config, schemas, front, n)
      ensures front[n].ctx in Admitted(config, schemas, all)
    {
      assert all[..n] == front[..n] && AdmittedAt(config, schemas, all, n);
    }
    assert all[..|front|] == front && all[|front|] == e;
    if e.Promote? && Authorised(RunAll(config, schemas, front).validations, e.ctx) {
      assert AdmittedAt(config, schemas, all, |front|);
    }
  }

  lemma {:induction false} ReachableSafe(config: PublicationConfig, schemas: set<string>, events: seq<Event>)
    returns (owner: Option<Context>)
    ensures Safe(config, RunAll(config, schemas, events), Recorded(events), owner)
    ensures owner.Some? ==> owner.value in Admitted(config, schemas, events)
  {
    if events == [] {
      owner := None;
    } else {
      var front, e := events[..|events| - 1], events[|events| - 1];
      assert events == front + [e];
      owner := ReachableSafe(config, schemas, front);
      AdmittedMore(config, schemas, front, e);
      owner := NextSafe(config, RunAll(config, schemas, front), Recorded(events), owner, e);
    }
  }

  // Nothing was ever published, or all views show one of these runs at the largest published batch.
  ghost predicate ShowsOneRun(config: PublicationConfig, d: Database, known: set<Context>) {
    || (d.views == map[] && d.publications == [])
    || exists ctx :: ctx in known && d.views == ViewSet(config, ctx) && MaxBatch(d.publications) == Some(ctx.batch)
  }

  lemma OwnerIsLargest(config: PublicationConfig, d: Database, known: set<Context>, runs: set<Context>,
                       owner: Option<Context>)
    requires Safe(config, d, known, owner) && (owner.Some? ==> owner.value in runs)
    ensures ShowsOneRun(config, d, runs)
  {
    if owner.Some? {
      LastIsLargest(d.publications, d.publications[|d.publications| - 1]);
      assert owner.value in runs && d.views == ViewSet(config, owner.value);
    }
  }

  lemma LastIsLargest(rows: seq<PublicationRow>, last: PublicationRow)
    requires last in rows && forall p :: p in rows ==> p.batch <= last.batch
    ensures MaxBatch(rows) == Some(last.batch)
  {
  }

  /** Over every run the views agree on one run at one batch, which was recorded as passed,
      whose promotion found its audit row saying so, and which is the largest published one;
      and a run is published at most once. */
  lemma ViewsAgree(config: PublicationConfig, schemas: set<string>, events: seq<Event>)
    ensures ShowsOneRun(config, RunAll(config, schemas, events), Recorded(events) * Admitted(config, schemas, events))
    ensures UniqueRuns(RunAll(config, schemas, events).publications)
  {
    var owner := ReachableSafe(config, schemas, events);
    OwnerIsLargest(config, RunAll(config, schemas, events), Recorded(events),
                   Recorded(events) * Admitted(config, schemas, events), owner);
  }

  /** The largest published batch, which is the live one, never decreases. */
  lemma LiveBatchNeverDrops(config: PublicationConfig, schemas: set<string>, events: seq<Event>, e: Event)
    ensures var before := MaxBatch(RunAll(config, schemas, events).publications);
            var after := MaxBatch(RunAll(config, schemas, events + [e]).publications);
            before.Some? ==> after.Some? && before.value <= after.value
  {
    assert (events + [e])[..|events|] == events;
    var d := RunAll(config, schemas, events);
    match e
    case Promote(ctx, report, at, lives) =>
      AllOrNothing(config, d, lives, ctx, report, at);
      var d' := RunAll(config, schemas, events + [e]);
      forall p | p in d.publications ensures p in d'.publications {
        var i :| 0 <= i < |d.publications| && d.publications[i] == p;
        assert d'.publications[i] == p;
      }
    case Record(report, lives) => AuditOnly(d, lives, report);
  }

  // Promotions read a clock that moves between calls.
  ghost predicate Clocked(events: seq<Event>) {
    forall i, j :: 0 <= i < j < |events| && events[i].Promote? && events[j].Promote? ==> events[i].at < events[j].at
  }

  // A row of current_validation_status: a publication joined with its validation run.
  ghost predicate InStatus(d: Database, row: PublicationRow) {
    row in d.publications && AuditOf(d.validations, row.runId).Some?
  }

  // Publication rows carry the times of promotions, in order.
  ghost predicate Stamped(rows: seq<PublicationRow>, events: seq<Event>) {
    && (forall p :: p in rows ==> exists e :: e in events && e.Promote? && e.at == p.publishedAt)
    && (forall i, j :: 0 <= i < j < |rows| ==> rows[i].publishedAt < rows[j].publishedAt)
  }

  lemma StampedAppend(rows: seq<PublicationRow>, front: seq<Event>, e: Event, row: PublicationRow)
    requires Stamped(rows, front) && Clocked(front + [e]) && e.Promote? && row.publishedAt == e.at
    ensures Stamped(rows + [row], front + [e])
  {
    var events := front + [e];
    forall p | p in rows
      ensures p.publishedAt < e.at && exists f :: f in events && f.Promote? && f.at == p.publishedAt
    {
      var f :| f in front && f.Promote? && f.at == p.publishedAt;
      var i :| 0 <= i < |front| && front[i] == f;
      assert events[i] == f && events[|front|] == e && f in events;
    }
    assert e in events;
  }

  lemma StampedMore(rows: seq<PublicationRow>, front: seq<Event>, e: Event)
    requires Stamped(rows, front)
    ensures Stamped(rows, front + [e])
  {
  }

  lemma {:induction false} RowsAreStamped(config: PublicationConfig, schemas: set<string>, events: seq<Event>)
    requires Clocked(events)
    ensures Stamped(RunAll(config, schemas, events).publications, events)
  {
    if events != [] {
      var front, e := events[..|events| - 1], events[|events| - 1];
      assert events == front + [e];
      RowsAreStamped(config, schemas, front);
      var d := RunAll(config, schemas, front);
      StampedMore(d.publications, front, e);
      match e
      case Promote(ctx, report, at, lives) =>
        AllOrNothing(config, d, lives, ctx, report, at);
        StampedAppend(d.publications, front, e, PublicationRow(ctx.runId, ctx.batch, at));
      case Record(report, lives) => AuditOnly(d, lives, report);
    }
  }

  // `row` is the first row of the status view, newest first.
  ghost predicate FirstStatus(d: Database, row: PublicationRow) {
    InStatus(d, row) && forall other :: InStatus(d, other) && other != row ==> other.publishedAt < row.publishedAt
  }

  /** With a clock that moves, the first row of current_validation_status is the run the
      views show. */
  lemma StatusShowsTheLiveRunFirst(config: PublicationConfig, schemas: set<string>, events: seq<Event>)
    requires Clocked(events)
    ensures var d := RunAll(config, schemas, events);
            d.publications != [] ==>
              exists row :: FirstStatus(d, row) && row.batch >= 1
                  && d.views == ViewSet(config, Context(row.runId, row.batch))
  {
    var owner := ReachableSafe(config, schemas, events);
    RowsAreStamped(config, schemas, events);
    OwnerIsFirstStatus(config, RunAll(config, schemas, events), Recorded(events), owner);
  }

  lemma OwnerIsFirstStatus(config: PublicationConfig, d: Database, known: set<Context>, owner: Option<Context>)
    requires Safe(config, d, known, owner)
    requires forall i, j :: 0 <= i < j < |d.publications| ==>
               d.publications[i].publishedAt < d.publications[j].publishedAt
    ensures d.publications != [] ==>
              exists row :: FirstStatus(d, row) && row.batch >= 1
                  && d.views == ViewSet(config, Context(row.runId, row.batch))
  {
  }

  // What a caller can read off the control tables before promoting.
  ghost predicate Promotable(d: Database, ctx: Context) {
    && Authorised(d.validations, ctx)
    && (forall p :: p in d.publications ==> p.batch <= ctx.batch)
    && (forall p :: p in d.publications && p.runId == ctx.runId ==> p.batch == ctx.batch)
  }

  lemma GatesExactly(d: Database, ctx: Context)
    requires UniqueRuns(d.publications)
    ensures !Gates(d, ctx).Rejected? <==> Promotable(d, ctx)
    ensures Promotable(d, ctx) ==>
              (Gates(d, ctx).AlreadyPublished? <==> exists p :: p in d.publications && p.runId == ctx.runId)
    ensures Gates(d, ctx) == Rejected(NoAuditRow) <==> !Authorised(d.validations, ctx)
    ensures Gates(d, ctx) == Rejected(NewerBatch)
       <==> Authorised(d.validations, ctx) && exists p :: p in d.publications && p.batch > ctx.batch
  {
  }

  // ---- what a view set tells ---------------------------------------------------------------

  // Publications whose names DuckDB takes for one show the same thing, and none hides the log.
  ghost predicate NamesKeepApart(config: PublicationConfig) {
    var all := config.publications;
    && (forall i, j :: 0 <= i < |all| && 0 <= j < |all| && FullName(all[i]) == FullName(all[j]) ==>
          Upper(all[i].relation) == Upper(all[j].relation) && Upper(all[i].batchColumn) == Upper(all[j].batchColumn))
    && forall i :: 0 <= i < |all| ==> FullName(all[i]) != StatusName(config)
  }

  // Publication `i` is visible in a view set under its own definition.
  ghost predicate Shown(config: PublicationConfig, ctx: Context, i: nat)
    requires i < |config.publications|
  {
    var name := FullName(config.publications[i]);
    && name in ViewSet(config, ctx)
    && Selects(ViewSet(config, ctx)[name], config.publications[i], ctx)
  }

  /** A view set shows every configured publication exactly when the names keep apart; the
      configuration compares names as they are spelt. */
  lemma ViewSetComplete(config: PublicationConfig, ctx: Context)
    ensures (forall i :: 0 <= i < |config.publications| ==> Shown(config, ctx, i)) <==> NamesKeepApart(config)
  {
    var all := config.publications;
    if NamesKeepApart(config) {
      forall i | 0 <= i < |all| ensures Shown(config, ctx, i) {
        PutViewsLookup(map[], all, ctx, FullName, FullName(all[i]));
      }
    }
    if forall i :: 0 <= i < |all| ==> Shown(config, ctx, i) {
      forall i, j | 0 <= i < |all| && 0 <= j < |all| && FullName(all[i]) == FullName(all[j])
        ensures ViewOf(all[i], ctx) == ViewOf(all[j], ctx)
      {
        assert Shown(config, ctx, i) && Shown(config, ctx, j);
      }
      forall i | 0 <= i < |all| ensures FullName(all[i]) != StatusName(config) { assert Shown(config, ctx, i); }
    }
  }

  // Some publication is not hidden by the status view.
  ghost predicate ShowsARun(config: PublicationConfig) {
    exists i :: 0 <= i < |config.publications| && FullName(config.publications[i]) != StatusName(config)
  }

  lemma SameViewSet(config: PublicationConfig, a: Context, b: Context)
    requires ShowsARun(config) && ViewSet(config, a) == ViewSet(config, b)
    ensures a == b
  {
    var i :| 0 <= i < |config.publications| && FullName(config.publications[i]) != StatusName(config);
    var name := FullName(config.publications[i]);
    PutViewsLookup(map[], config.publications, a, FullName, name);
    PutViewsLookup(map[], config.publications, b, FullName, name);
    assert ViewSet(config, a)[name] == ViewSet(config, b)[name];
  }
}
