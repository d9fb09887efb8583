/** How the live batch moves on Snowflake: exactly when a call keeps it, exactly when it can
    still be lowered, and runs from an empty warehouse in which things go wrong. */
module SnowflakeLiveBatch {
  import opened Models
  import opened Snowflake
  import opened SnowflakePromotion
  import opened SnowflakeSafety
  import opened SnowflakeTheorems

  // ---- one call ------------------------------------------------------------------------------

  /** An accepted, uninterrupted call keeps the live batch exactly when its run is already
      recorded as published, or is not of a smaller batch. */
  lemma LiveBatchKeptExactlyWhen(config: PublicationConfig, events: seq<Event>, ctx: Context, report: ValidationReport,
                                 lives: nat, live: Context, after: Context)
    requires ShowsARun(config)
    requires Matches(ctx, report) && lives >= Needed(config)
    requires Promotable(RunAll(config, events).session, ctx)
    requires RunAll(config, events).analytics == Some(ViewSet(config, live))
    requires Promotion(config, RunAll(config, events), lives, ctx, report).w.analytics == Some(ViewSet(config, after))
    ensures after.batch >= live.batch
       <==> PublishedIn(RunAll(config, events).session, ctx.runId) || ctx.batch >= live.batch
  {
    Resumption(config, events, ctx, report, lives, 4);
    SameViewSet(config, live, after);
    SameViewSet(config, ctx, after);
  }

  // ---- whole runs ----------------------------------------------------------------------------

  // A durably published row carries the live batch.
  ghost predicate Covered(w: Warehouse, live: Context) {
    exists p :: p in w.durable.publications && p.status == Published && p.batch == live.batch
  }

  lemma {:induction false} PublishedStays(config: PublicationConfig, events: seq<Event>, more: seq<Event>,
                                          row: PublicationRow)
    requires row in RunAll(config, events).durable.publications && row.status == Published
    ensures row in RunAll(config, events + more).durable.publications
  {
    if more == [] {
      assert events + more == events;
    } else {
      var n := |more| - 1;
      PublishedStays(config, events, more[..n], row);
      PublishedIsForever(config, events + more[..n], more[n], row);
      assert events + more[..n] + [more[n]] == events + more;
    }
  }

  lemma CoveredIsKept(config: PublicationConfig, events: seq<Event>, more: seq<Event>, live: Context, after: Context)
    requires ShowsARun(config)
    requires Covered(RunAll(config, events), live)
    requires RunAll(config, events + more).analytics == Some(ViewSet(config, after))
    ensures after.batch >= live.batch
  {
    var row :| row in RunAll(config, events).durable.publications && row.status == Published && row.batch == live.batch;
    PublishedStays(config, events, more, row);
    var owner := ReachableSafe(config, events + more);
    assert STATUS_VIEW in ViewSet(config, after);
    SameViewSet(config, owner.value, after);
  }

  function Longest(rows: seq<PublicationRow>): (n: nat)
    ensures forall p :: p in rows ==> |p.runId| <= n
  {
    if rows == [] then 0
    else
      var rest := Longest(rows[1..]);
      if |rows[0].runId| > rest then |rows[0].runId| else rest
  }

  // A run id no row has.
  function NewRun(rows: seq<PublicationRow>): (id: string)
    ensures forall p :: p in rows ==> p.runId != id
  {
    seq(Longest(rows) + 1, i => 'x')
  }

  function PassedReport(ctx: Context): (r: ValidationReport)
    ensures Matches(ctx, r)
  {
    ValidationReport(ctx.runId, ctx.batch, true, [])
  }

  // A fresh connection, a passed validation of the run, and its promotion.
  function Republish(config: PublicationConfig, ctx: Context): seq<Event> {
    [CloseConnection, Record(PassedReport(ctx), 6), Promote(ctx, PassedReport(ctx), Needed(config))]
  }

  lemma RunAppend(config: PublicationConfig, events: seq<Event>, e: Event)
    ensures RunAll(config, events + [e]) == Next(config, RunAll(config, events), e)
  {
    assert (events + [e])[..|events|] == events;
  }

  lemma ValidatedIsPromotable(t: Tables, ctx: Context)
    requires forall p :: p in t.publications ==> p.runId != ctx.runId
    requires forall p :: p in t.publications && p.status == Published ==> p.batch <= ctx.batch
    ensures var after := t.(validations := Upsert(t.validations, AuditRow(ctx.runId, ctx.batch, true)));
            Promotable(after, ctx) && !PublishedIn(after, ctx.runId)
  {
    UpsertThenRead(t.validations, AuditRow(ctx.runId, ctx.batch, true), ctx.runId);
  }

  // Any run is promoted that is new and not below what is durably published.
  lemma RepublishPromotes(config: PublicationConfig, events: seq<Event>, ctx: Context)
    requires forall p :: p in RunAll(config, events).durable.publications ==> p.runId != ctx.runId
    requires forall p ::
               p in RunAll(config, events).durable.publications && p.status == Published ==> p.batch <= ctx.batch
    ensures RunAll(config, events + Republish(config, ctx)).analytics == Some(ViewSet(config, ctx))
  {
    var report := PassedReport(ctx);
    var recorded := events + [CloseConnection] + [Record(report, 6)];
    Revalidated(config, events, ctx);
    ValidatedIsPromotable(RunAll(config, events).durable, ctx);
    NewRunGoesLive(config, recorded, ctx);
    assert events + Republish(config, ctx) == recorded + [Promote(ctx, report, Needed(config))];
  }

  lemma NewRunGoesLive(config: PublicationConfig, events: seq<Event>, ctx: Context)
    requires Promotable(RunAll(config, events).session, ctx) && !PublishedIn(RunAll(config, events).session, ctx.runId)
    ensures RunAll(config, events + [Promote(ctx, PassedReport(ctx), Needed(config))]).analytics
         == Some(ViewSet(config, ctx))
  {
    Resumption(config, events, ctx, PassedReport(ctx), Needed(config), 4);
    RunAppend(config, events, Promote(ctx, PassedReport(ctx), Needed(config)));
  }

  lemma Revalidated(config: PublicationConfig, events: seq<Event>, ctx: Context)
    ensures var t := RunAll(config, events).durable;
            RunAll(config, events + [CloseConnection] + [Record(PassedReport(ctx), 6)]).session
            == t.(validations := Upsert(t.validations, AuditRow(ctx.runId, ctx.batch, true)))
  {
    RunAppend(config, events, CloseConnection);
    RunAppend(config, events + [CloseConnection], Record(PassedReport(ctx), 6));
    AuditCompletes(RunAll(config, events + [CloseConnection]), 6, PassedReport(ctx));
  }

  // Some continuation of the run shows a smaller batch.
  ghost predicate CanBeLowered(config: PublicationConfig, events: seq<Event>, live: Context) {
    exists more: seq<Event>, after: Context ::
      RunAll(config, events + more).analytics == Some(ViewSet(config, after)) && after.batch < live.batch
  }

  /** The live batch can still be lowered, by whatever happens next, exactly while no durably
      published row carries it and it is not the first batch there can be. */
  lemma LiveBatchCanBeLoweredExactlyWhen(config: PublicationConfig, events: seq<Event>, live: Context)
    requires ShowsARun(config)
    requires RunAll(config, events).analytics == Some(ViewSet(config, live))
    ensures CanBeLowered(config, events, live) <==> !Covered(RunAll(config, events), live) && live.batch > 1
  {
    var w := RunAll(config, events);
    if Covered(w, live) {
      forall more: seq<Event>, after: Context | RunAll(config, events + more).analytics == Some(ViewSet(config, after))
        ensures after.batch >= live.batch
      {
        CoveredIsKept(config, events, more, live, after);
      }
    } else if live.batch > 1 {
      LowerUncovered(config, events, live);
    }
  }

  lemma LowerUncovered(config: PublicationConfig, events: seq<Event>, live: Context)
    requires ShowsARun(config) && live.batch > 1
    requires RunAll(config, events).analytics == Some(ViewSet(config, live)) && !Covered(RunAll(config, events), live)
    ensures CanBeLowered(config, events, live)
  {
    var w := RunAll(config, events);
    var owner := ReachableSafe(config, events);
    assert STATUS_VIEW in ViewSet(config, live);
    SameViewSet(config, owner.value, live);
    var low := Context(NewRun(w.durable.publications), live.batch - 1);
    RepublishPromotes(config, events, low);
    assert RunAll(config, events + Republish(config, low)).analytics == Some(ViewSet(config, low))
        && low.batch < live.batch;
  }

  // ---- runs from an empty warehouse --------------------------------------------------------------

  // Two passed validations; the promotion of the larger batch stops after the swap.
  function DroppingRun(config: PublicationConfig, high: Context, low: Context): seq<Event> {
    [Record(PassedReport(high), 6), Record(PassedReport(low), 6),
     Promote(high, PassedReport(high), ThroughSwap(config, true)), Promote(low, PassedReport(low), Needed(config))]
  }

  lemma RecordedTwice(config: PublicationConfig, a: Context, b: Context)
    ensures var w := RunAll(config, [Record(PassedReport(a), 6), Record(PassedReport(b), 6)]);
            && w.session.publications == [] && w.session == w.durable && w.analytics.None?
            && (a.runId != b.runId ==> Authorised(w.session.validations, a)) && Authorised(w.session.validations, b)
  {
    var x, y := AuditRow(a.runId, a.batch, true), AuditRow(b.runId, b.batch, true);
    RunAppend(config, [], Record(PassedReport(a), 6));
    RunAppend(config, [Record(PassedReport(a), 6)], Record(PassedReport(b), 6));
    assert [] + [Record(PassedReport(a), 6)] == [Record(PassedReport(a), 6)];
    assert [Record(PassedReport(a), 6)] + [Record(PassedReport(b), 6)]
        == [Record(PassedReport(a), 6), Record(PassedReport(b), 6)];
    AuditCompletes(FRESH, 6, PassedReport(a));
    AuditCompletes(RunAll(config, [Record(PassedReport(a), 6)]), 6, PassedReport(b));
    UpsertThenRead([], x, a.runId);
    UpsertThenRead(Upsert([], x), y, a.runId);
    UpsertThenRead(Upsert([], x), y, b.runId);
  }

  /** The live batch does go down, from an empty warehouse: validated runs of two batches, the
      larger one's promotion stopped after its swap, then the smaller one's. */
  lemma LiveBatchDrops(config: PublicationConfig, high: Context, low: Context)
    requires low.batch < high.batch && low.runId != high.runId
    ensures RunAll(config, DroppingRun(config, high, low)[..3]).analytics == Some(ViewSet(config, high))
    ensures RunAll(config, DroppingRun(config, high, low)).analytics == Some(ViewSet(config, low))
  {
    var all := DroppingRun(config, high, low);
    RecordedTwice(config, high, low);
    assert all[..2] == [all[0], all[1]] && all[..3] == all[..2] + [all[2]] && all == all[..3] + [all[3]];
    RunAppend(config, all[..2], all[2]);
    RunAppend(config, all[..3], all[3]);
    LiveBatchCanDrop(config, RunAll(config, all[..2]), high, low, PassedReport(high), PassedReport(low));
  }

  // A validation of a run and its promotion, stopped after the swap.
  function UnrecordedRun(config: PublicationConfig, ctx: Context): seq<Event> {
    [Record(PassedReport(ctx), 6), Promote(ctx, PassedReport(ctx), ThroughSwap(config, true))]
  }

  /** Stopped after its swap, the first run of an empty warehouse is live and its batch is not
      recorded; it can then be lowered exactly if it is not batch 1. */
  lemma UnrecordedRunCanBeLowered(config: PublicationConfig, ctx: Context)
    requires ShowsARun(config)
    ensures var events := UnrecordedRun(config, ctx);
            && RunAll(config, events).analytics == Some(ViewSet(config, ctx)) && !Covered(RunAll(config, events), ctx)
            && (CanBeLowered(config, events, ctx) <==> ctx.batch > 1)
  {
    var events, record := UnrecordedRun(config, ctx), Record(PassedReport(ctx), 6);
    var audit := AuditRow(ctx.runId, ctx.batch, true);
    assert [] + [record] == [record] && events == [record] + [events[1]];
    RunAppend(config, [], record);
    RunAppend(config, [record], events[1]);
    AuditCompletes(FRESH, 6, PassedReport(ctx));
    UpsertThenRead([], audit, ctx.runId);
    StoppedAfterSwap(config, RunAll(config, [record]), ctx, PassedReport(ctx));
    assert RunAll(config, events).durable.publications == [PendingRow(ctx)];
    LiveBatchCanBeLoweredExactlyWhen(config, events, ctx);
  }

  // Run `a` is published; run `b` is swapped in but not recorded; run `a` is promoted again.
  function StrandedRun(config: PublicationConfig, a: Context, b: Context): seq<Event> {
    [Record(PassedReport(a), 6), Record(PassedReport(b), 6), Promote(a, PassedReport(a), Needed(config)),
     Promote(b, PassedReport(b), ThroughSwap(config, true)), CloseConnection,
     Promote(a, PassedReport(a), Needed(config))]
  }

  function PublishedRow(ctx: Context): PublicationRow { PublicationRow(ctx.runId, ctx.batch, Published) }

  lemma FirstPublished(config: PublicationConfig, w: Warehouse, a: Context)
    requires w.session == w.durable && w.session.publications == [] && Authorised(w.session.validations, a)
    ensures var o := Promotion(config, w, Needed(config), a, PassedReport(a));
            && o.w.session == w.session.(publications := [PublishedRow(a)]) && o.w.durable == o.w.session
            && o.w.analytics == Some(ViewSet(config, a))
  {
    EnsureExec(w, Needed(config));
    ProgramCompletes(config, Commit(w), Needed(config) - 4, a, true);
    assert [] + [PendingRow(a)] == [PendingRow(a)] && [PendingRow(a)][1..] == [];
    assert Marked([PendingRow(a)], a.runId) == [PublishedRow(a)];
  }

  lemma TwoRows(a: Context, b: Context)
    requires a.runId != b.runId
    ensures var rows := [PublishedRow(a)] + [PendingRow(b)];
            MaxPublished(rows) == Some(a.batch) && PublicationOf(rows, a.runId) == Some(PublishedRow(a))
  {
    AppendPending([PublishedRow(a)], PendingRow(b), a.runId);
    assert [PublishedRow(a)][1..] == [];
  }

  // What the second promotion of `a` finds and leaves.
  lemma StrandedAfterwards(config: PublicationConfig, w: Warehouse, a: Context, b: Context)
    requires a.runId != b.runId && a.batch <= b.batch
    requires w.session == w.durable && w.session.publications == [PublishedRow(a)]
    requires Authorised(w.session.validations, a) && Authorised(w.session.validations, b)
    ensures var stopped := Promotion(config, w, ThroughSwap(config, true), b, PassedReport(b)).w;
            var o := Promotion(config, Disconnect(stopped), Needed(config), a, PassedReport(a));
            && o.result == Unchanged && o.w.analytics == Some(ViewSet(config, b)) && o.w.staging.Some?
            && o.w.session.publications == [PublishedRow(a), PendingRow(b)]
  {
    assert [PublishedRow(a)][1..] == [] && PublicationOf([PublishedRow(a)], b.runId).None?;
    StoppedAfterSwap(config, w, b, PassedReport(b));
    TwoRows(a, b);
    var stopped := Promotion(config, w, ThroughSwap(config, true), b, PassedReport(b)).w;
    EnsureExec(Disconnect(stopped), Needed(config));
  }

  /** The early return really strands a run: from an empty warehouse, a run is published,
      another one stops after its swap, and promoting the first again is accepted, changes
      nothing, and leaves the other run live and its predecessor's views in staging. */
  lemma PublishedRunIsStranded(config: PublicationConfig, a: Context, b: Context)
    requires a.runId != b.runId && a.batch <= b.batch
    ensures var all := StrandedRun(config, a, b);
            var before, w := RunAll(config, all[..5]), RunAll(config, all);
            && Promotion(config, before, Needed(config), a, PassedReport(a)).result == Unchanged
            && PublishedIn(w.session, a.runId) && !PublishedIn(w.session, b.runId)
            && w.analytics == Some(ViewSet(config, b)) && w.staging.Some?
  {
    var all := StrandedRun(config, a, b);
    RecordedTwice(config, a, b);
    assert all[..2] == [all[0], all[1]] && all[..3] == all[..2] + [all[2]] && all[..4] == all[..3] + [all[3]];
    assert all[..5] == all[..4] + [all[4]] && all == all[..5] + [all[5]];
    RunAppend(config, all[..2], all[2]);
    RunAppend(config, all[..3], all[3]);
    RunAppend(config, all[..4], all[4]);
    RunAppend(config, all[..5], all[5]);
    FirstPublished(config, RunAll(config, all[..2]), a);
    StrandedAfterwards(config, RunAll(config, all[..3]), a, b);
    var rows := RunAll(config, all).session.publications;
    assert PublishedRow(a) in rows && rows == [PublishedRow(a), PendingRow(b)];
  }

  // ---- colliding names -------------------------------------------------------------------------------

  // Two publications with different full names and one last part.
  const COLLIDING := PublicationConfig("analytics",
    [PublicationRule("sales.x", "first", "b"), PublicationRule("stock.x", "second", "b")])

  lemma StagedAlike()
    ensures StagedName(COLLIDING.publications[0]) == "X" && StagedName(COLLIDING.publications[1]) == "X"
  {
    assert "sales.x" == "sales" + "." + "x" && "stock.x" == "stock" + "." + "x";
    LastPartIs("sales", "x");
    LastPartIs("stock", "x");
    assert Upper("x") == "X";
  }

  /** A configuration with distinct view names can lose a publication: promoted from an empty
      warehouse, the swapped-in schema does not show the first of the two. */
  lemma CollidingNamesLoseAView(ctx: Context)
    ensures COLLIDING.publications[0].view != COLLIDING.publications[1].view && !NamesKeepApart(COLLIDING)
    ensures RunAll(COLLIDING, Republish(COLLIDING, ctx)).analytics == Some(ViewSet(COLLIDING, ctx))
    ensures !Shown(COLLIDING, ctx, 0)
  {
    StagedAlike();
    assert COLLIDING.publications[0].view[1] != COLLIDING.publications[1].view[1];
    assert [] + Republish(COLLIDING, ctx) == Republish(COLLIDING, ctx);
    RepublishPromotes(COLLIDING, [], ctx);
    var all := COLLIDING.publications;
    assert all[1..] == [all[1]] && all[1..][1..] == [];
    assert ViewSet(COLLIDING, ctx)["X"] == ViewOf(all[1], ctx);
  }
}
