/** The Snowflake protocol refines the DuckDB transaction: as long as calls fail before
    the schema swap, both services decide alike, show the same run and record the same
    published rows. Abandoned pending rows are the only thing that tells them apart. */
module PublicationRefinement {
  import opened Models
  import S = Snowflake
  import SP = SnowflakePromotion
  import SS = SnowflakeSafety
  import ST = SnowflakeTheorems
  import D = DuckDb
  import DP = DuckDbPromotion
  import DT = DuckDbTheorems

  // ---- how far a connection gets ----------------------------------------------------------

  function TotalCost(ss: seq<S.Statement>): nat {
    if ss == [] then 0 else S.Cost(ss[0]) + TotalCost(ss[1..])
  }

  lemma {:induction false} TotalCostSplit(a: seq<S.Statement>, b: seq<S.Statement>)
    ensures TotalCost(a + b) == TotalCost(a) + TotalCost(b)
  {
    if a == [] {
      assert a + b == b;
    } else {
      assert (a + b)[1..] == a[1..] + b;
      TotalCostSplit(a[1..], b);
    }
  }

  lemma {:induction false} DoneCosts(w: S.Warehouse, left: nat, ss: seq<S.Statement>)
    ensures var p := S.Exec(w, left, ss); p.done ==> p.left == left - TotalCost(ss)
    decreases |ss|
  {
    if ss != [] {
      var p := S.Step(w, left, ss[0]);
      if p.done { DoneCosts(p.w, p.left, ss[1..]); }
    }
  }

  lemma {:induction false} StagesCost(publications: seq<PublicationRule>, ctx: Context)
    ensures TotalCost(SP.StageStatements(publications, ctx)) == 2 * |publications|
  {
    if publications != [] {
      assert SP.StageStatements(publications, ctx)[1..] == SP.StageStatements(publications[1..], ctx);
      StagesCost(publications[1..], ctx);
    }
  }

  lemma BeforeSwapCost(config: PublicationConfig, ctx: Context, insert: bool)
    ensures TotalCost(SP.BeforeSwap(config, ctx, insert)) == ST.ThroughSwap(config, insert) - 6
  {
    var first := if insert then [S.InsertPending(ctx)] else [];
    var stages := SP.StageStatements(config.publications, ctx);
    var ends := [S.StageView(SP.STATUS_VIEW, View.StatusView), S.EnsureAnalytics];
    assert SP.BeforeSwap(config, ctx, insert) == first + ([S.ReplaceStaging] + (stages + ends));
    TotalCostSplit(first, [S.ReplaceStaging] + (stages + ends));
    TotalCostSplit([S.ReplaceStaging], stages + ends);
    TotalCostSplit(stages, ends);
    StagesCost(config.publications, ctx);
    assert [S.InsertPending(ctx)][1..] == [] && [S.ReplaceStaging][1..] == [];
    assert ends[1..] == [S.EnsureAnalytics] && [S.EnsureAnalytics][1..] == [];
  }

  // ---- the two databases tell the same story ------------------------------------------------

  ghost predicate SamePublished(w: seq<S.PublicationRow>, d: seq<D.PublicationRow>) {
    forall runId, batch ::
      S.PublicationRow(runId, batch, S.Published) in w
      <==> exists at :: D.PublicationRow(runId, batch, at) in d
  }

  ghost predicate SameLive(config: PublicationConfig, w: S.Warehouse, d: D.Database, owner: Option<Context>) {
    && SS.LiveIs(config, w, owner)
    && d.views == if owner.Some? then DT.ViewSet(config, owner.value) else map[]
  }

  /** A closed Snowflake connection and a DuckDB database that agree on everything but
      pending rows. */
  ghost predicate Agrees(config: PublicationConfig, w: S.Warehouse, d: D.Database,
                         known: set<Context>, owner: Option<Context>) {
    && w.session == w.durable
    && SS.Safe(config, w, known, owner)
    && DT.Safe(config, d, known, owner)
    && w.durable.validations == d.validations
    && SamePublished(w.durable.publications, d.publications)
  }

  lemma SameFloor(w: seq<S.PublicationRow>, d: seq<D.PublicationRow>)
    requires SamePublished(w, d)
    ensures S.MaxPublished(w) == D.MaxBatch(d)
  {
    forall p | p in w && p.status == S.Published ensures D.MaxBatch(d).Some? && p.batch <= D.MaxBatch(d).value {
      BelowDuckDb(w, d, p);
    }
    forall p | p in d ensures S.MaxPublished(w).Some? && p.batch <= S.MaxPublished(w).value { BelowSnowflake(w, d, p); }
  }

  lemma BelowDuckDb(w: seq<S.PublicationRow>, d: seq<D.PublicationRow>, p: S.PublicationRow)
    requires SamePublished(w, d) && p in w && p.status == S.Published
    ensures D.MaxBatch(d).Some? && p.batch <= D.MaxBatch(d).value
  {
    assert p == S.PublicationRow(p.runId, p.batch, S.Published);
    var at :| D.PublicationRow(p.runId, p.batch, at) in d;
  }

  lemma BelowSnowflake(w: seq<S.PublicationRow>, d: seq<D.PublicationRow>, p: D.PublicationRow)
    requires SamePublished(w, d) && p in d
    ensures S.MaxPublished(w).Some? && p.batch <= S.MaxPublished(w).value
  {
    assert p == D.PublicationRow(p.runId, p.batch, p.publishedAt);
    assert S.PublicationRow(p.runId, p.batch, S.Published) in w;
  }

  // An abandoned promotion of the same run at another batch.
  ghost predicate StalePending(w: S.Warehouse, ctx: Context) {
    exists p :: p in w.session.publications && p.runId == ctx.runId && p.batch != ctx.batch && p.status == S.Pending
  }

  function SnowflakeVerdict(w: S.Warehouse, ctx: Context): Result {
    match SP.Gates(w.session, ctx)
    case Rejected(reason) => Refused(reason)
    case AlreadyPublished => Unchanged
    case Go(_) => Promoted
  }

  function DuckDbVerdict(d: D.Database, ctx: Context): Result {
    match DP.Gates(d, ctx)
    case Rejected(reason) => Refused(reason)
    case AlreadyPublished => Unchanged
    case Go => Promoted
  }

  /** The gates of the two services differ exactly when the run has a pending row at another
      batch and the other gates let it through; DuckDB then promotes what Snowflake refuses. */
  lemma VerdictsDifferExactlyWhen(config: PublicationConfig, w: S.Warehouse, d: D.Database,
                                  known: set<Context>, owner: Option<Context>, ctx: Context)
    requires Agrees(config, w, d, known, owner)
    ensures SnowflakeVerdict(w, ctx) != DuckDbVerdict(d, ctx)
            <==> StalePending(w, ctx) && DuckDbVerdict(d, ctx) == Promoted
    ensures SnowflakeVerdict(w, ctx) != DuckDbVerdict(d, ctx) ==> SnowflakeVerdict(w, ctx) == Refused(OtherBatch)
  {
    SameFloor(w.session.publications, d.publications);
    TwinRow(config, w, d, known, owner, ctx);
    StaleRow(config, w, d, known, owner, ctx);
    GatesCompared(w, d, ctx);
  }

  lemma GatesCompared(w: S.Warehouse, d: D.Database, ctx: Context)
    requires w.session.validations == d.validations
          && S.MaxPublished(w.session.publications) == D.MaxBatch(d.publications)
    requires var snow, duck := S.PublicationOf(w.session.publications, ctx.runId),
               D.PublicationOf(d.publications, ctx.runId);
             && (duck.None? <==> snow.None? || snow.value.status == S.Pending)
             && (duck.Some? ==> snow == Some(S.PublicationRow(ctx.runId, duck.value.batch, S.Published)))
    ensures var snow := S.PublicationOf(w.session.publications, ctx.runId);
            SnowflakeVerdict(w, ctx) != DuckDbVerdict(d, ctx)
            <==> && snow.Some? && snow.value.status == S.Pending && snow.value.batch != ctx.batch
                 && DuckDbVerdict(d, ctx) == Promoted
    ensures SnowflakeVerdict(w, ctx) != DuckDbVerdict(d, ctx) ==> SnowflakeVerdict(w, ctx) == Refused(OtherBatch)
  {
  }

  // A stale pending row is the row gate 4 finds, and DuckDB has no row then.
  lemma StaleRow(config: PublicationConfig, w: S.Warehouse, d: D.Database, known: set<Context>,
                 owner: Option<Context>, ctx: Context)
    requires Agrees(config, w, d, known, owner)
    ensures var snow := S.PublicationOf(w.session.publications, ctx.runId);
            && (StalePending(w, ctx) <==> snow.Some? && snow.value.status == S.Pending && snow.value.batch != ctx.batch)
            && (D.PublicationOf(d.publications, ctx.runId).None? <==> snow.None? || snow.value.status == S.Pending)
  {
    TwinRow(config, w, d, known, owner, ctx);
    var snow := S.PublicationOf(w.session.publications, ctx.runId);
    if snow.Some? {
      forall p | p in w.session.publications && p.runId == ctx.runId ensures p == snow.value {
      }
      if snow.value.status == S.Published { OnDuckDb(w, d, snow.value); }
    }
  }

  lemma OnDuckDb(w: S.Warehouse, d: D.Database, row: S.PublicationRow)
    requires SamePublished(w.session.publications, d.publications)
    requires row in w.session.publications && row.status == S.Published
    ensures D.PublicationOf(d.publications, row.runId).Some?
  {
    assert S.PublicationRow(row.runId, row.batch, S.Published) in w.session.publications;
    var at :| D.PublicationRow(row.runId, row.batch, at) in d.publications;
  }

  // A row on DuckDB is a published row on Snowflake.
  lemma TwinRow(config: PublicationConfig, w: S.Warehouse, d: D.Database, known: set<Context>,
                owner: Option<Context>, ctx: Context)
    requires Agrees(config, w, d, known, owner)
    ensures var duck := D.PublicationOf(d.publications, ctx.runId);
            duck.Some? ==> S.PublicationOf(w.session.publications, ctx.runId)
                           == Some(S.PublicationRow(ctx.runId, duck.value.batch, S.Published))
  {
    var duck := D.PublicationOf(d.publications, ctx.runId);
    if duck.Some? {
      assert duck.value == D.PublicationRow(ctx.runId, duck.value.batch, duck.value.publishedAt);
      assert S.PublicationRow(ctx.runId, duck.value.batch, S.Published) in w.session.publications;
    }
  }

  // ---- an uninterrupted DuckDB promotion completes --------------------------------------------

  lemma {:induction false} SchemaOfDotted(schema: string, name: string)
    requires '.' !in name
    ensures D.SchemaOf(schema + "." + name) == Some(schema) && D.SchemaOf(name) == None
    decreases |schema| + |name|
  {
    if schema != "" {
      assert (schema + "." + name)[1..] == schema[1..] + "." + name;
      assert [schema[0]] + schema[1..] == schema;
      SchemaOfDotted(schema[1..], name);
    } else {
      assert schema + "." + name == "." + name;
      assert ("." + name)[1..] == name;
      if name != "" { SchemaOfDotted("", name[1..]); }
    }
  }

  lemma StatusSchema(config: PublicationConfig)
    ensures D.SchemaOf(DP.StatusName(config)) == Some(Lower(config.analyticsSchema))
  {
    assert '.' !in DP.STATUS_VIEW;
    SchemaOfDotted(Lower(config.analyticsSchema), DP.STATUS_VIEW);
  }

  // A view is put where its name says, and into the main schema when it does not say.
  lemma ViewSchema(p: PublicationRule)
    ensures D.SchemaOf(DP.FullName(p)) == Some(if DP.OwnSchema(p).Some? then DP.OwnSchema(p).value else D.MAIN)
  {
    var name := Lower(LastPart(p.view));
    LowerKeepsDots(LastPart(p.view));
    SchemaOfDotted(if DP.OwnSchema(p).Some? then DP.OwnSchema(p).value else D.MAIN, name);
  }

  lemma {:induction false} LowerFront(s: string)
    requires s != ""
    ensures Lower(s) == Lower(s[..|s| - 1]) + [LowerChar(s[|s| - 1])]
  {
    if |s| > 1 {
      LowerFront(s[1..]);
      assert s[..|s| - 1][1..] == s[1..][..|s| - 2];
    }
  }

  lemma {:induction false} LowerLastPart(s: string)
    ensures Lower(LastPart(s)) == LastPart(Lower(s))
  {
    if s != "" {
      var front, c := s[..|s| - 1], s[|s| - 1];
      LowerFront(s);
      LowerLastPart(front);
      assert Lower(s)[..|s| - 1] == Lower(front);
      if c != '.' {
        LowerFront(LastPart(s));
        assert LastPart(s)[..|LastPart(s)| - 1] == LastPart(front);
      }
    }
  }

  lemma {:induction false} LowerSchemaOf(s: string)
    ensures D.SchemaOf(Lower(s)) == if D.SchemaOf(s).Some? then Some(Lower(D.SchemaOf(s).value)) else None
  {
    if s != "" { LowerSchemaOf(s[1..]); }
  }

  /** DuckDB keeps names apart by their letters, not by their case, and an undotted name is one of
      the schema `main`. */
  lemma NamesIgnoreCase(p: PublicationRule, q: PublicationRule)
    ensures Lower(p.view) == Lower(q.view) ==> DP.FullName(p) == DP.FullName(q)
    ensures '.' !in p.view && q.view == "main." + p.view ==> DP.FullName(p) == DP.FullName(q)
  {
    LowerLastPart(p.view);
    LowerLastPart(q.view);
    LowerSchemaOf(p.view);
    LowerSchemaOf(q.view);
    if '.' !in p.view && q.view == "main." + p.view { UndottedIsMain(p, q); }
  }

  lemma UndottedIsMain(p: PublicationRule, q: PublicationRule)
    requires '.' !in p.view && q.view == "main." + p.view
    ensures DP.FullName(p) == DP.FullName(q)
  {
    assert q.view == D.MAIN + "." + p.view;
    NameInSchema(D.MAIN, p, q);
    LowerIs(D.MAIN, "main");
  }

  lemma NameInSchema(schema: string, p: PublicationRule, q: PublicationRule)
    requires '.' !in p.view && q.view == schema + "." + p.view
    ensures DP.FullName(p) == D.MAIN + "." + Lower(p.view)
    ensures DP.FullName(q) == Lower(schema) + "." + Lower(p.view)
  {
    SchemaOfDotted(schema, p.view);
    LastPartIs(schema, p.view);
  }

  /** The status view has one name on both services. */
  lemma StatusViewsShareTheirName()
    ensures Lower(SP.STATUS_VIEW) == DP.STATUS_VIEW
  {
    LowerIs(SP.STATUS_VIEW, DP.STATUS_VIEW);
  }

  lemma {:induction false} LowerIs(s: string, t: string)
    requires |s| == |t| && forall i :: 0 <= i < |s| ==> LowerChar(s[i]) == t[i]
    ensures Lower(s) == t
  {
    if s != "" { LowerIs(s[1..], t[1..]); }
  }

  lemma {:induction false} LowerKeepsDots(s: string)
    ensures '.' in Lower(s) <==> '.' in s
  {
    if s != "" { LowerKeepsDots(s[1..]); }
  }

  lemma {:induction false} ViewsComplete(d: D.Database, left: nat, publications: seq<PublicationRule>, ctx: Context)
    requires left >= 2 * |publications|
    ensures var p := D.Exec(d, left, DP.ViewStatements(publications, ctx));
            p.done && p.left >= left - 2 * |publications|
    decreases |publications|
  {
    if publications != [] {
      var one := DP.OneView(publications[0], ctx);
      var replace := D.ReplaceView(DP.FullName(publications[0]), ViewOf(publications[0], ctx));
      ViewSchema(publications[0]);
      D.ExecSplit(d, left, one, DP.ViewStatements(publications[1..], ctx));
      if DP.OwnSchema(publications[0]).Some? {
        var ensure := D.EnsureSchema(DP.OwnSchema(publications[0]).value);
        assert one == [ensure] + [replace];
        D.ExecCons(d, left, ensure, [replace]);
      } else {
        assert one == [replace];
      }
      assert [replace][1..] == [];
      var p := D.Exec(d, left, one);
      ViewsComplete(p.d, p.left, publications[1..], ctx);
    }
  }

  // The status view finds its schema: it is the built-in one, exists, or is created by a publication.
  ghost predicate HasAnalytics(config: PublicationConfig, schemas: set<string>) {
    Lower(config.analyticsSchema) in schemas + {D.MAIN} + DT.SchemasOf(config.publications)
  }

  function DuckDbNeeded(config: PublicationConfig): nat { 2 * |config.publications| + 6 }

  /** An uninterrupted DuckDB call gets the verdict of its gates exactly when it has nothing
      to publish, or the analytics schema exists or is created by a publication. */
  lemma DuckDbCompletesExactlyWhen(config: PublicationConfig, d: D.Database, left: nat, ctx: Context,
                                   report: ValidationReport, at: int)
    requires Matches(ctx, report) && left >= DuckDbNeeded(config)
    ensures DP.Promotion(config, d, left, ctx, report, at).result == DuckDbVerdict(d, ctx)
       <==> DuckDbVerdict(d, ctx) != Promoted || HasAnalytics(config, d.schemas)
  {
    if DP.Gates(d, ctx).Go? { PublishCompletes(config, d, left - 3, ctx, at); }
  }

  /** With any report, whatever its checks, an uninterrupted DuckDB promotion is accepted exactly
      when the report passed and is this run's at this batch, the control tables allow it, and
      there is nothing to publish or the status view has its schema. */
  lemma DuckDbAcceptsExactlyWhen(config: PublicationConfig, d: D.Database, left: nat, ctx: Context,
                                 report: ValidationReport, at: int)
    requires DT.UniqueRuns(d.publications) && left >= DuckDbNeeded(config)
    ensures DP.Promotion(config, d, left, ctx, report, at).result in {Promoted, Unchanged}
       <==> && report.passed && report.runId == ctx.runId && report.batch == ctx.batch
            && DT.Promotable(d, ctx)
            && (HasAnalytics(config, d.schemas) || exists p :: p in d.publications && p.runId == ctx.runId)
    ensures !(report.passed && report.runId == ctx.runId && report.batch == ctx.batch) ==>
              DP.Promotion(config, d, left, ctx, report, at)
              == DP.Outcome(d, Refused(if report.passed then ForeignReport else FailedReport))
  {
    ReportDecides(ctx, report);
    DT.GatesExactly(d, ctx);
    if Matches(ctx, report) {
      DuckDbCompletesExactlyWhen(config, d, left, ctx, report, at);
      if DP.Gates(d, ctx).Go? { DT.AllOrNothing(config, d, left, ctx, report, at); }
    }
  }

  // What an accepted promotion leaves: the run is published, and its views are shown unless it was before.
  ghost predicate Published(config: PublicationConfig, d: D.Database, after: D.Database, ctx: Context) {
    && (exists row :: row in after.publications && row.runId == ctx.runId && row.batch == ctx.batch)
    && after.views == if exists row :: row in d.publications && row.runId == ctx.runId then d.views
                      else DT.ViewSet(config, ctx)
  }

  lemma DuckDbPublishes(config: PublicationConfig, d: D.Database, known: set<Context>, owner: Option<Context>,
                        left: nat, ctx: Context, report: ValidationReport, at: int)
    requires DT.Safe(config, d, known, owner) && left >= DuckDbNeeded(config)
    requires Matches(ctx, report) && DT.Promotable(d, ctx) && HasAnalytics(config, d.schemas)
    ensures Published(config, d, DP.Promotion(config, d, left, ctx, report, at).d, ctx)
  {
    DuckDbCompletesExactlyWhen(config, d, left, ctx, report, at);
    DT.GatesExactly(d, ctx);
    DT.AllOrNothing(config, d, left, ctx, report, at);
    DT.ViewsForget(config, owner, ctx);
    if DP.Gates(d, ctx).Go? {
      var row := D.PublicationRow(ctx.runId, ctx.batch, at);
      assert (d.publications + [row])[|d.publications|] == row;
    }
  }

  lemma PublishCompletes(config: PublicationConfig, d: D.Database, left: nat, ctx: Context, at: int)
    requires left >= 2 * |config.publications| + 3 && D.PublicationOf(d.publications, ctx.runId).None?
    ensures var p := D.Exec(d, left, DP.PublishStatements(config, ctx, at));
            (p.done <==> HasAnalytics(config, d.schemas)) && (p.done ==> p.left > 0)
  {
    ViewsComplete(d, left, config.publications, ctx);
    DT.ViewsReplaced(d, left, config.publications, ctx);
    var row, name := D.PublicationRow(ctx.runId, ctx.batch, at), DP.StatusName(config);
    D.ExecSplit(d, left, DP.ViewStatements(config.publications, ctx),
                [D.InsertPublication(row), D.ReplaceView(name, View.StatusView)]);
    var p := D.Exec(d, left, DP.ViewStatements(config.publications, ctx));
    StatusSchema(config);
    RowAndStatus(p.d, p.left, row, name, Lower(config.analyticsSchema));
  }

  // The row and the status view go in exactly when the status view's schema is there.
  lemma RowAndStatus(d: D.Database, left: nat, row: D.PublicationRow, name: string, schema: string)
    requires left >= 3 && D.PublicationOf(d.publications, row.runId).None? && D.SchemaOf(name) == Some(schema)
    ensures var p := D.Exec(d, left, [D.InsertPublication(row), D.ReplaceView(name, View.StatusView)]);
            (p.done <==> schema in d.schemas + {D.MAIN}) && (p.done ==> p.left > 0)
  {
    var insert, status := D.InsertPublication(row), D.ReplaceView(name, View.StatusView);
    assert [insert, status] == [insert] + [status] && [status][1..] == [];
    D.ExecCons(d, left, insert, [status]);
  }

  // ---- one call on both sides -----------------------------------------------------------------

  lemma SnowflakeCompletes(config: PublicationConfig, w: S.Warehouse, known: set<Context>, owner: Option<Context>,
                           left: nat, ctx: Context, report: ValidationReport)
    requires SS.Safe(config, w, known, owner) && w.session == w.durable
    requires Matches(ctx, report) && left >= ST.Needed(config)
    ensures var o := SP.Promotion(config, w, left, ctx, report);
            && o.result == SnowflakeVerdict(w, ctx)
            && (o.result != Promoted ==> o.w == w)
            && (o.result == Promoted ==>
                  o.w == ST.PublishedWarehouse(config, ST.Inserted(w.session, ctx, SP.Gates(w.session, ctx).insert),
                                               ctx))
  {
    ST.EnsureExec(w, left);
    assert S.Commit(w) == w;
    if SP.Gates(w.session, ctx).Go? {
      ST.ProgramCompletes(config, w, left - 4, ctx, SP.Gates(w.session, ctx).insert);
    }
  }

  lemma PromotedRows(t: S.Tables, d: seq<D.PublicationRow>, ctx: Context, at: int,
                     known: set<Context>, owner: Option<Context>)
    requires SS.SafeTables(t, known, owner) && SP.Gates(t, ctx).Go? && SamePublished(t.publications, d)
    ensures SamePublished(S.Marked(ST.Inserted(t, ctx, SP.Gates(t, ctx).insert).publications, ctx.runId),
                          d + [D.PublicationRow(ctx.runId, ctx.batch, at)])
  {
    SS.GatesClear(t, known, owner, ctx);
    var insert := SP.Gates(t, ctx).insert;
    var rows := ST.Inserted(t, ctx, insert).publications;
    var i := if insert then |rows| - 1 else ST.RowIndex(t, ctx);
    SS.MarkedRows(rows, ctx.runId);
    var after := S.Marked(rows, ctx.runId);
    var d' := d + [D.PublicationRow(ctx.runId, ctx.batch, at)];
    forall runId, batch
      ensures S.PublicationRow(runId, batch, S.Published) in after
              <==> exists a :: D.PublicationRow(runId, batch, a) in d'
    {
      var row := S.PublicationRow(runId, batch, S.Published);
      if runId == ctx.runId {
        OwnRow(rows, ctx, i, batch);
        assert d'[|d|] == D.PublicationRow(ctx.runId, ctx.batch, at);
        forall a | D.PublicationRow(runId, batch, a) in d ensures batch == ctx.batch {
          assert S.PublicationRow(runId, batch, S.Published) in t.publications;
        }
      } else {
        OtherRow(rows, ctx, row);
        if row in t.publications {
          var a :| D.PublicationRow(runId, batch, a) in d;
          assert D.PublicationRow(runId, batch, a) in d';
        }
      }
    }
  }

  lemma OwnRow(rows: seq<S.PublicationRow>, ctx: Context, i: nat, batch: int)
    requires SS.Cleared(rows, ctx) && i < |rows| && rows[i].runId == ctx.runId
    ensures S.PublicationRow(ctx.runId, batch, S.Published) in S.Marked(rows, ctx.runId) <==> batch == ctx.batch
  {
    SS.MarkedRows(rows, ctx.runId);
    var after := S.Marked(rows, ctx.runId);
    assert rows[i] in rows && after[i] == S.PublicationRow(ctx.runId, ctx.batch, S.Published);
    if S.PublicationRow(ctx.runId, batch, S.Published) in after {
      var j :| 0 <= j < |after| && after[j] == S.PublicationRow(ctx.runId, batch, S.Published);
      assert rows[j] in rows;
    }
  }

  lemma OtherRow(rows: seq<S.PublicationRow>, ctx: Context, row: S.PublicationRow)
    requires row.runId != ctx.runId
    ensures row in S.Marked(rows, ctx.runId) <==> row in rows
  {
    SS.MarkedRows(rows, ctx.runId);
    var after := S.Marked(rows, ctx.runId);
    if row in rows {
      var j :| 0 <= j < |rows| && rows[j] == row;
      assert after[j] == row;
    }
    if row in after {
      var j :| 0 <= j < |after| && after[j] == row;
      assert rows[j] == row;
    }
  }

  /** An uninterrupted call decides alike on both sides and leaves them in agreement,
      unless a stale pending row stands in the way. */
  lemma WholeCall(config: PublicationConfig, w: S.Warehouse, d: D.Database, known: set<Context>, owner: Option<Context>,
                  ctx: Context, report: ValidationReport, at: int, lives: nat, duckLives: nat)
    returns (owner': Option<Context>)
    requires Agrees(config, w, d, known, owner) && HasAnalytics(config, d.schemas) && !StalePending(w, ctx)
    requires lives >= ST.Needed(config) && duckLives >= DuckDbNeeded(config)
    ensures var o := SP.Promotion(config, w, lives, ctx, report);
            var q := DP.Promotion(config, d, duckLives, ctx, report, at);
            o.result == q.result && Agrees(config, S.Disconnect(o.w), q.d, known, owner')
  {
    owner' := owner;
    assert S.Disconnect(w) == w;
    if ReportVerdict(ctx, report).None? {
      VerdictsDifferExactlyWhen(config, w, d, known, owner, ctx);
      SnowflakeCompletes(config, w, known, owner, lives, ctx, report);
      DuckDbCompletesExactlyWhen(config, d, duckLives, ctx, report, at);
      DT.AllOrNothing(config, d, duckLives, ctx, report, at);
      if SnowflakeVerdict(w, ctx) == Promoted {
        owner' := BothPromoted(config, w, d, known, owner, ctx, report, at, lives, duckLives);
      }
    }
  }

  lemma BothPromoted(config: PublicationConfig, w: S.Warehouse, d: D.Database, known: set<Context>,
                     owner: Option<Context>, ctx: Context, report: ValidationReport, at: int, lives: nat,
                     duckLives: nat)
    returns (owner': Option<Context>)
    requires Agrees(config, w, d, known, owner) && Matches(ctx, report)
    requires lives >= ST.Needed(config)
    requires SnowflakeVerdict(w, ctx) == Promoted
    requires DP.Promotion(config, d, duckLives, ctx, report, at).result == Promoted
    ensures Agrees(config, S.Disconnect(SP.Promotion(config, w, lives, ctx, report).w),
                   DP.Promotion(config, d, duckLives, ctx, report, at).d, known, owner')
  {
    owner' := Some(ctx);
    SnowflakeCompletes(config, w, known, owner, lives, ctx, report);
    DT.AllOrNothing(config, d, duckLives, ctx, report, at);
    PromotedRows(w.session, d.publications, ctx, at, known, owner);
    var _ := SS.NextSafe(config, w, known, owner, SS.Promote(ctx, report, lives));
    SnowflakeOwner(config, w, known, owner, ctx);
    DT.PromotedSafe(config, d, known, owner, ctx, report, at, duckLives);
  }

  lemma SnowflakeOwner(config: PublicationConfig, w: S.Warehouse, known: set<Context>, owner: Option<Context>,
                       ctx: Context)
    requires SS.Safe(config, w, known, owner) && SP.Gates(w.session, ctx).Go?
    ensures var t := ST.Inserted(w.session, ctx, SP.Gates(w.session, ctx).insert);
            SS.Safe(config, ST.PublishedWarehouse(config, t, ctx), known, Some(ctx))
  {
    SS.GatesClear(w.session, known, owner, ctx);
    ST.RecordedAfterwards(w.session, known, owner, ctx);
  }

  /** A call that stops before the swap on Snowflake, and does not commit on DuckDB, changes
      nothing the two agree on: at most a pending row stays behind. */
  lemma StoppedCall(config: PublicationConfig, w: S.Warehouse, d: D.Database, known: set<Context>,
                    owner: Option<Context>,
                    ctx: Context, report: ValidationReport, at: int, lives: nat, duckLives: nat)
    requires Agrees(config, w, d, known, owner)
    requires lives < ST.ThroughSwap(config, S.PublicationOf(w.session.publications, ctx.runId).None?)
    requires !DP.Promotion(config, d, duckLives, ctx, report, at).result.Promoted?
    ensures var w' := S.Disconnect(SP.Promotion(config, w, lives, ctx, report).w);
            && Agrees(config, w', DP.Promotion(config, d, duckLives, ctx, report, at).d, known, owner)
            && (w'.durable == w.durable
                || w'.durable == w.durable.(publications := w.durable.publications + [ST.PendingRow(ctx)]))
  {
    DT.AllOrNothing(config, d, duckLives, ctx, report, at);
    ST.EnsureExec(w, lives);
    assert S.Commit(w) == w && S.Disconnect(w) == w;
    if ReportVerdict(ctx, report).None? && lives >= 4 && SP.Gates(w.session, ctx).Go? {
      StoppedProgram(config, w, known, owner, ctx, lives - 4, SP.Gates(w.session, ctx).insert);
      AppendedPending(w.durable.publications, d.publications, ctx);
    }
  }

  lemma AppendedPending(w: seq<S.PublicationRow>, d: seq<D.PublicationRow>, ctx: Context)
    requires SamePublished(w, d)
    ensures SamePublished(w + [ST.PendingRow(ctx)], d)
  {
  }

  lemma StoppedProgram(config: PublicationConfig, w: S.Warehouse, known: set<Context>, owner: Option<Context>,
                       ctx: Context, left: nat, insert: bool)
    requires SS.Safe(config, w, known, owner) && w.session == w.durable
    requires SP.Gates(w.session, ctx) == SP.Go(insert) && left + 4 < ST.ThroughSwap(config, insert)
    ensures var w' := S.Disconnect(S.Exec(w, left, SP.Program(config, ctx, insert)).w);
            && SS.Safe(config, w', known, owner)
            && (w'.durable == w.durable
                || w'.durable == w.durable.(publications := w.durable.publications + [ST.PendingRow(ctx)]))
  {
    SS.GatesClear(w.session, known, owner, ctx);
    var before, after := SP.BeforeSwap(config, ctx, insert), [S.SwapSchemas] + SP.RecordStatements(ctx);
    S.ExecSplit(w, left, before, after);
    SS.BeforeSwapSafe(config, w, known, owner, left, ctx, insert);
    BeforeSwapCost(config, ctx, insert);
    DoneCosts(w, left, before);
    BeforeSwapTables(config, w, left, ctx, insert);
    var p := S.Exec(w, left, before);
    if p.done {
      assert p.left < 2;
      S.ExecCons(p.w, p.left, S.SwapSchemas, SP.RecordStatements(ctx));
    }
  }

  lemma BeforeSwapTables(config: PublicationConfig, w: S.Warehouse, left: nat, ctx: Context, insert: bool)
    requires w.session == w.durable
    ensures var p := S.Exec(w, left, SP.BeforeSwap(config, ctx, insert));
            var t := w.durable.(publications := w.durable.publications + [ST.PendingRow(ctx)]);
            p.w.durable in {w.durable, t} && p.w.session in {w.durable, t}
  {
    var first := if insert then [S.InsertPending(ctx)] else [];
    var rest := SP.BuildStatements(config, ctx) + [S.EnsureAnalytics];
    assert SP.BeforeSwap(config, ctx, insert) == first + rest;
    S.ExecSplit(w, left, first, rest);
    SS.StagesOnly(config.publications, ctx);
    assert [S.InsertPending(ctx)][1..] == [];
    var p := S.Exec(w, left, first);
    if p.done { SchemasOnly(p.w, p.left, rest); }
  }

  lemma {:induction false} SchemasOnly(w: S.Warehouse, left: nat, ss: seq<S.Statement>)
    requires forall s :: s in ss ==> S.IsDdl(s)
    ensures var p := S.Exec(w, left, ss);
            p.w.session == w.session && (p.w.durable == w.durable || p.w.durable == w.session)
    decreases |ss|
  {
    if ss != [] {
      var p := S.Step(w, left, ss[0]);
      if p.done { SchemasOnly(p.w, p.left, ss[1..]); }
    }
  }

  // ---- whole sequences of calls -----------------------------------------------------------------

  datatype Call =
    | Whole(ctx: Context, report: ValidationReport, at: int)
    | Stopped(ctx: Context, report: ValidationReport, at: int, lives: nat, duckLives: nat)
    | Audit(report: ValidationReport)

  datatype Both = Both(w: S.Warehouse, d: D.Database)

  function SnowflakeCall(config: PublicationConfig, w: S.Warehouse, c: Call): SP.Outcome {
    match c
    case Whole(ctx, report, _) =>
      SP.Promotion(config, w, ST.Needed(config), ctx, report)
    case Stopped(ctx, report, _, lives, _) => SP.Promotion(config, w, lives, ctx, report)
    case Audit(report) =>
      SP.Outcome(S.Exec(w, 6, SP.AuditStatements(report)).w, 0, Unchanged)
  }

  function DuckDbCall(config: PublicationConfig, d: D.Database, c: Call): DP.Outcome {
    match c
    case Whole(ctx, report, at) => DP.Promotion(config, d, DuckDbNeeded(config), ctx, report, at)
    case Stopped(ctx, report, at, _, lives) => DP.Promotion(config, d, lives, ctx, report, at)
    case Audit(report) => DP.Outcome(DP.Audited(d, 3, report).d, Unchanged)
  }

  // Each call runs on its own connection, which is closed afterwards.
  function After(config: PublicationConfig, schemas: set<string>, calls: seq<Call>): Both {
    if calls == [] then Both(SS.FRESH, DT.Fresh(schemas))
    else Called(config, After(config, schemas, calls[..|calls| - 1]), calls[|calls| - 1])
  }

  // One call to both services, and the Snowflake connection closed.
  function Called(config: PublicationConfig, b: Both, c: Call): Both {
    Both(S.Disconnect(SnowflakeCall(config, b.w, c).w), DuckDbCall(config, b.d, c).d)
  }

  // A stopped call fails before the swap and before the commit.
  ghost predicate FailsEarly(config: PublicationConfig, b: Both, c: Call) {
    c.Stopped? ==>
      && c.lives < ST.ThroughSwap(config, S.PublicationOf(b.w.session.publications, c.ctx.runId).None?)
      && !DuckDbCall(config, b.d, c).result.Promoted?
  }

  ghost predicate AllFailEarly(config: PublicationConfig, schemas: set<string>, calls: seq<Call>) {
    forall i :: 0 <= i < |calls| ==> FailsEarly(config, After(config, schemas, calls[..i]), calls[i])
  }

  // A run id determines its batch.
  ghost predicate RunsHaveOneBatch(calls: seq<Call>, batchOf: string -> int) {
    forall c :: c in calls && !c.Audit? ==> c.ctx.batch == batchOf(c.ctx.runId)
  }

  ghost predicate RowsHaveOneBatch(rows: seq<S.PublicationRow>, batchOf: string -> int) {
    forall p :: p in rows ==> p.batch == batchOf(p.runId)
  }

  ghost function Recorded(calls: seq<Call>): set<Context> {
    set c | c in calls && c.Audit? && c.report.passed && c.report.batch >= 1 :: Context(c.report.runId, c.report.batch)
  }

  lemma AuditBoth(config: PublicationConfig, b: Both, known: set<Context>, owner: Option<Context>,
                  report: ValidationReport)
    requires Agrees(config, b.w, b.d, known, owner)
    requires report.passed && report.batch >= 1 ==> Context(report.runId, report.batch) in known
    ensures var w := S.Disconnect(SnowflakeCall(config, b.w, Audit(report)).w);
            && Agrees(config, w, DuckDbCall(config, b.d, Audit(report)).d, known, owner)
            && w.durable.publications == b.w.durable.publications
  {
    DT.AuditOnly(b.d, 3, report);
    ST.AuditCompletes(b.w, 6, report);
    var _ := SS.NextSafe(config, b.w, known, owner, SS.Record(report, 6));
    var _ := DT.NextSafe(config, b.d, known, owner, DT.Record(report, 3));
    AuditedSafe(config, b, known, owner, AuditRow(report.runId, report.batch, report.passed));
  }

  lemma AuditedSafe(config: PublicationConfig, b: Both, known: set<Context>, owner: Option<Context>, row: AuditRow)
    requires Agrees(config, b.w, b.d, known, owner)
          && (row.passed && row.batch >= 1 ==> Context(row.runId, row.batch) in known)
    ensures var t := b.w.session.(validations := Upsert(b.w.session.validations, row));
            Agrees(config, b.w.(durable := t, session := t), b.d.(validations := Upsert(b.d.validations, row)), known,
                   owner)
  {
    DT.AuditedSafe(config, b.d, known, owner, row);
    UpsertRows(b.d.validations, row);
  }

  lemma WholeKeepsBatches(config: PublicationConfig, w: S.Warehouse, known: set<Context>, owner: Option<Context>,
                          ctx: Context, report: ValidationReport, batchOf: string -> int)
    requires SS.Safe(config, w, known, owner) && w.session == w.durable
    requires RowsHaveOneBatch(w.durable.publications, batchOf) && ctx.batch == batchOf(ctx.runId)
    ensures RowsHaveOneBatch(SP.Promotion(config, w, ST.Needed(config), ctx, report).w.durable.publications, batchOf)
  {
    if ReportVerdict(ctx, report).None? {
      SnowflakeCompletes(config, w, known, owner, ST.Needed(config), ctx, report);
      if SP.Gates(w.session, ctx).Go? {
        MarkedKeepsBatches(ST.Inserted(w.session, ctx, SP.Gates(w.session, ctx).insert).publications, ctx.runId,
                           batchOf);
      }
    }
  }

  lemma MarkedKeepsBatches(rows: seq<S.PublicationRow>, runId: string, batchOf: string -> int)
    requires RowsHaveOneBatch(rows, batchOf)
    ensures RowsHaveOneBatch(S.Marked(rows, runId), batchOf)
  {
    SS.MarkedRows(rows, runId);
    forall p | p in S.Marked(rows, runId) ensures p.batch == batchOf(p.runId) {
      var i :| 0 <= i < |rows| && S.Marked(rows, runId)[i] == p;
      assert rows[i] in rows;
    }
  }

  lemma OneCall(config: PublicationConfig, b: Both, known: set<Context>, owner: Option<Context>,
                c: Call, batchOf: string -> int) returns (owner': Option<Context>)
    requires Agrees(config, b.w, b.d, known, owner) && HasAnalytics(config, b.d.schemas)
    requires RowsHaveOneBatch(b.w.durable.publications, batchOf) && FailsEarly(config, b, c)
    requires !c.Audit? ==> c.ctx.batch == batchOf(c.ctx.runId)
    requires c.Audit? && c.report.passed && c.report.batch >= 1 ==> Context(c.report.runId, c.report.batch) in known
    ensures var w := S.Disconnect(SnowflakeCall(config, b.w, c).w);
            && Agrees(config, w, DuckDbCall(config, b.d, c).d, known, owner')
            && RowsHaveOneBatch(w.durable.publications, batchOf)
            && (c.Whole? ==> SnowflakeCall(config, b.w, c).result == DuckDbCall(config, b.d, c).result)
  {
    owner' := owner;
    match c
    case Whole(ctx, report, at) =>
      owner' := WholeCall(config, b.w, b.d, known, owner, ctx, report, at, ST.Needed(config), DuckDbNeeded(config));
      WholeKeepsBatches(config, b.w, known, owner, ctx, report, batchOf);
    case Stopped(ctx, report, at, lives, duckLives) =>
      StoppedCall(config, b.w, b.d, known, owner, ctx, report, at, lives, duckLives);
    case Audit(report) => AuditBoth(config, b, known, owner, report);
  }

  /** For every sequence of calls whose failures come before the swap, and a run id that
      determines its batch, the two services agree at the end: the same run is live, the
      same rows are published. */
  lemma SnowflakeRefinesDuckDb(config: PublicationConfig, schemas: set<string>, calls: seq<Call>,
                               batchOf: string -> int)
    returns (owner: Option<Context>)
    requires HasAnalytics(config, schemas) && RunsHaveOneBatch(calls, batchOf) && AllFailEarly(config, schemas, calls)
    ensures Together(config, schemas, After(config, schemas, calls), Recorded(calls), owner, batchOf)
  {
    owner := TogetherSoFar(config, schemas, calls, batchOf, |calls|);
    assert calls[..|calls|] == calls;
  }

  lemma {:induction false} TogetherSoFar(config: PublicationConfig, schemas: set<string>, calls: seq<Call>,
                                         batchOf: string -> int, n: nat)
    returns (owner: Option<Context>)
    requires HasAnalytics(config, schemas) && RunsHaveOneBatch(calls, batchOf) && AllFailEarly(config, schemas, calls)
    requires n <= |calls|
    ensures Together(config, schemas, After(config, schemas, calls[..n]), Recorded(calls[..n]), owner, batchOf)
  {
    if n == 0 {
      owner := None;
      StartTogether(config, schemas, batchOf);
    } else {
      owner := TogetherSoFar(config, schemas, calls, batchOf, n - 1);
      FailsEarlyAt(config, schemas, calls, n - 1);
      owner := NextCall(config, schemas, calls, batchOf, n - 1, owner);
    }
  }

  lemma FailsEarlyAt(config: PublicationConfig, schemas: set<string>, calls: seq<Call>, i: nat)
    requires AllFailEarly(config, schemas, calls) && i < |calls|
    ensures FailsEarly(config, After(config, schemas, calls[..i]), calls[i])
  {
  }

  lemma NextCall(config: PublicationConfig, schemas: set<string>, calls: seq<Call>, batchOf: string -> int, i: nat,
                 owner: Option<Context>) returns (owner': Option<Context>)
    requires HasAnalytics(config, schemas) && i < |calls|
          && FailsEarly(config, After(config, schemas, calls[..i]), calls[i])
    requires !calls[i].Audit? ==> calls[i].ctx.batch == batchOf(calls[i].ctx.runId)
    requires Together(config, schemas, After(config, schemas, calls[..i]), Recorded(calls[..i]), owner, batchOf)
    ensures Together(config, schemas, After(config, schemas, calls[..i + 1]), Recorded(calls[..i + 1]), owner', batchOf)
  {
    assert calls[..i + 1] == calls[..i] + [calls[i]];
    owner' := OneCallMore(config, schemas, calls[..i], calls[i], owner, batchOf);
  }

  // What holds between the services after any number of calls.
  ghost predicate Together(config: PublicationConfig, schemas: set<string>, b: Both, known: set<Context>,
                           owner: Option<Context>, batchOf: string -> int) {
    && Agrees(config, b.w, b.d, known, owner)
    && SameLive(config, b.w, b.d, owner)
    && RowsHaveOneBatch(b.w.durable.publications, batchOf)
    && schemas <= b.d.schemas
  }

  lemma StartTogether(config: PublicationConfig, schemas: set<string>, batchOf: string -> int)
    ensures Together(config, schemas, After(config, schemas, []), Recorded([]), None, batchOf)
  {
  }

  lemma OneCallMore(config: PublicationConfig, schemas: set<string>, front: seq<Call>, c: Call, owner: Option<Context>,
                    batchOf: string -> int) returns (owner': Option<Context>)
    requires HasAnalytics(config, schemas) && (!c.Audit? ==> c.ctx.batch == batchOf(c.ctx.runId))
    requires FailsEarly(config, After(config, schemas, front), c)
    requires Together(config, schemas, After(config, schemas, front), Recorded(front), owner, batchOf)
    ensures Together(config, schemas, After(config, schemas, front + [c]), Recorded(front + [c]), owner', batchOf)
  {
    var b := After(config, schemas, front);
    assert (front + [c])[..|front|] == front && c in front + [c];
    MoreKnown(config, b, Recorded(front), Recorded(front + [c]), owner);
    owner' := OneCall(config, b, Recorded(front + [c]), owner, c, batchOf);
    SchemasGrow(config, b.d, c);
  }

  lemma SchemasGrow(config: PublicationConfig, d: D.Database, c: Call)
    ensures d.schemas <= DuckDbCall(config, d, c).d.schemas
  {
    match c
    case Whole(ctx, report, at) => DT.AllOrNothing(config, d, DuckDbNeeded(config), ctx, report, at);
    case Stopped(ctx, report, at, _, lives) => DT.AllOrNothing(config, d, lives, ctx, report, at);
    case Audit(report) => DT.AuditOnly(d, 3, report);
  }

  lemma MoreKnown(config: PublicationConfig, b: Both, known: set<Context>, more: set<Context>, owner: Option<Context>)
    requires Agrees(config, b.w, b.d, known, owner) && known <= more
    ensures Agrees(config, b.w, b.d, more, owner)
  {
  }

  /** ... and every uninterrupted call was answered alike on the way. */
  lemma SameAnswers(config: PublicationConfig, schemas: set<string>, calls: seq<Call>, batchOf: string -> int, i: nat)
    requires HasAnalytics(config, schemas) && RunsHaveOneBatch(calls, batchOf) && AllFailEarly(config, schemas, calls)
    requires i < |calls| && calls[i].Whole?
    ensures var b := After(config, schemas, calls[..i]);
            SnowflakeCall(config, b.w, calls[i]).result == DuckDbCall(config, b.d, calls[i]).result
  {
    var front := calls[..i];
    var owner := TogetherSoFar(config, schemas, calls, batchOf, i);
    MoreKnown(config, After(config, schemas, front), Recorded(front), Recorded(calls), owner);
    var _ := OneCall(config, After(config, schemas, front), Recorded(calls), owner, calls[i], batchOf);
  }

  // Call `i` of the sequence gets one answer from both services.
  ghost predicate AnsweredAlike(config: PublicationConfig, schemas: set<string>, calls: seq<Call>, i: nat)
    requires i < |calls|
  {
    var b := After(config, schemas, calls[..i]);
    SnowflakeCall(config, b.w, calls[i]).result == DuckDbCall(config, b.d, calls[i]).result
  }

  // Every uninterrupted call of every admissible sequence is answered alike.
  ghost predicate AlwaysAlike(config: PublicationConfig, schemas: set<string>) {
    forall calls: seq<Call>, batchOf: string -> int, i: nat ::
      RunsHaveOneBatch(calls, batchOf) && AllFailEarly(config, schemas, calls) && i < |calls| && calls[i].Whole?
      ==> AnsweredAlike(config, schemas, calls, i)
  }

  // A validation of a run and its promotion, uninterrupted.
  function FirstCalls(ctx: Context): seq<Call> {
    var report := ValidationReport(ctx.runId, ctx.batch, true, []);
    [Audit(report), Whole(ctx, report, 0)]
  }

  lemma AfterFirstAudit(config: PublicationConfig, schemas: set<string>, ctx: Context)
    ensures var b := After(config, schemas, FirstCalls(ctx)[..1]);
            && b.w.session == b.w.durable && b.w.session.publications == [] && b.d.publications == []
            && b.d.schemas == schemas && Authorised(b.w.session.validations, ctx) && Authorised(b.d.validations, ctx)
  {
    var calls, report := FirstCalls(ctx), ValidationReport(ctx.runId, ctx.batch, true, []);
    var first := calls[..1];
    assert first[..|first| - 1] == [] && first[|first| - 1] == Audit(report);
    ST.AuditCompletes(SS.FRESH, 6, report);
    DT.AuditOnly(DT.Fresh(schemas), 3, report);
    UpsertThenRead([], AuditRow(ctx.runId, ctx.batch, true), ctx.runId);
  }

  lemma FirstCallsApart(config: PublicationConfig, schemas: set<string>, ctx: Context)
    requires !HasAnalytics(config, schemas)
    ensures !AnsweredAlike(config, schemas, FirstCalls(ctx), 1)
  {
    var report := ValidationReport(ctx.runId, ctx.batch, true, []);
    var b := After(config, schemas, FirstCalls(ctx)[..1]);
    AfterFirstAudit(config, schemas, ctx);
    ST.EnsureExec(b.w, ST.Needed(config));
    ST.ProgramCompletes(config, S.Commit(b.w), ST.Needed(config) - 4, ctx, true);
    DuckDbCompletesExactlyWhen(config, b.d, DuckDbNeeded(config), ctx, report, 0);
  }

  /** The two services answer every uninterrupted call alike exactly when the DuckDB database
      has the analytics schema, or a publication creates it. */
  lemma AnswersAgreeExactlyWhen(config: PublicationConfig, schemas: set<string>)
    ensures AlwaysAlike(config, schemas) <==> HasAnalytics(config, schemas)
  {
    if HasAnalytics(config, schemas) {
      forall calls: seq<Call>, batchOf: string -> int, i: nat
        | RunsHaveOneBatch(calls, batchOf) && AllFailEarly(config, schemas, calls) && i < |calls| && calls[i].Whole?
        ensures AnsweredAlike(config, schemas, calls, i)
      {
        SameAnswers(config, schemas, calls, batchOf, i);
      }
    } else {
      FirstAnswersApart(config, schemas, Context("run", 1));
    }
  }

  lemma FirstAnswersApart(config: PublicationConfig, schemas: set<string>, ctx: Context)
    requires !HasAnalytics(config, schemas)
    ensures !AlwaysAlike(config, schemas)
  {
    var calls, batchOf := FirstCalls(ctx), (id: string) => ctx.batch as int;
    FirstCallsApart(config, schemas, ctx);
    assert RunsHaveOneBatch(calls, batchOf) && AllFailEarly(config, schemas, calls) && calls[1].Whole?;
  }

  // ---- a run that tells the services apart -------------------------------------------------------

  // A promotion abandoned after its pending insert, then the same run validated at another batch.
  function StaleCalls(a: Context, b: Context): seq<Call> {
    var first, second := ValidationReport(a.runId, a.batch, true, []), ValidationReport(b.runId, b.batch, true, []);
    [Audit(first), Stopped(a, first, 0, 6, 0), Audit(second), Whole(b, second, 1)]
  }

  // Stopped within the statement after the pending insert: the row is committed, nothing else happens.
  lemma StoppedAfterInsert(config: PublicationConfig, w: S.Warehouse, ctx: Context, report: ValidationReport)
    requires Matches(ctx, report) && SP.Gates(w.session, ctx) == SP.Go(true)
    ensures var t := ST.Inserted(w.session, ctx, true);
            SP.Promotion(config, w, 6, ctx, report).w == w.(durable := t, session := t)
  {
    ST.EnsureExec(w, 6);
    SP.ProgramParts(config, ctx, true);
    var build, tail := SP.BuildStatements(config, ctx), [S.EnsureAnalytics, S.SwapSchemas] + SP.RecordStatements(ctx);
    S.ExecCons(S.Commit(w), 2, S.InsertPending(ctx), build + tail);
    assert (build + tail)[0] == S.ReplaceStaging;
  }

  // The state in which the run's second batch is promoted.
  lemma AfterStaleCalls(config: PublicationConfig, schemas: set<string>, a: Context, b: Context)
    requires a.runId == b.runId
    ensures var s := After(config, schemas, StaleCalls(a, b)[..3]);
            && s.w.session == s.w.durable && s.w.session.publications == [ST.PendingRow(a)]
            && s.d.publications == [] && s.d.schemas == schemas
            && Authorised(s.w.session.validations, b) && Authorised(s.d.validations, b)
  {
    var calls := StaleCalls(a, b);
    var first := After(config, schemas, calls[..1]);
    assert calls[..1] == FirstCalls(a)[..1] && calls[..2][..1] == calls[..1] && calls[..3][..2] == calls[..2];
    AfterFirstAudit(config, schemas, a);
    StoppedAfterInsert(config, first.w, a, calls[0].report);
    var stopped := After(config, schemas, calls[..2]);
    ST.AuditCompletes(stopped.w, 6, calls[2].report);
    DT.AuditOnly(stopped.d, 3, calls[2].report);
    UpsertThenRead(stopped.w.session.validations, AuditRow(b.runId, b.batch, true), b.runId);
    UpsertThenRead(stopped.d.validations, AuditRow(b.runId, b.batch, true), b.runId);
  }

  /** The gates do come apart: validate a run, abandon its promotion after the pending insert,
      validate it at another batch and promote that. All failures are early, and Snowflake
      refuses what DuckDB promotes. */
  lemma StalePendingDivides(config: PublicationConfig, schemas: set<string>, a: Context, b: Context)
    requires a.runId == b.runId && a.batch != b.batch && HasAnalytics(config, schemas)
    ensures var calls := StaleCalls(a, b);
            var s := After(config, schemas, calls[..3]);
            && AllFailEarly(config, schemas, calls) && StalePending(s.w, b)
            && SnowflakeCall(config, s.w, calls[3]).result == Refused(OtherBatch)
            && DuckDbCall(config, s.d, calls[3]).result == Promoted
  {
    var calls := StaleCalls(a, b);
    var s := After(config, schemas, calls[..3]);
    AfterStaleCalls(config, schemas, a, b);
    assert ST.PendingRow(a) in s.w.session.publications;
    ST.EnsureExec(s.w, ST.Needed(config));
    DuckDbCompletesExactlyWhen(config, s.d, DuckDbNeeded(config), b, calls[3].report, 1);
    StaleCallsFailEarly(config, schemas, a, b);
  }

  lemma StaleCallsFailEarly(config: PublicationConfig, schemas: set<string>, a: Context, b: Context)
    ensures AllFailEarly(config, schemas, StaleCalls(a, b))
  {
    var calls := StaleCalls(a, b);
    assert calls[..1] == FirstCalls(a)[..1];
    AfterFirstAudit(config, schemas, a);
  }
}
