/** From the change log to the published views: the three accounts of the data - the captured
    history, the replayed change stream and the published candidate - are one relation. */
module EndToEnd {
  import opened Models
  import opened CdcState
  import opened Canonical
  import Framing
  import opened Reconciliation
  import opened Gate
  import GateTheorems
  import G = GateCompleteness
  import H = SourceHistory
  import A = Agreement
  import B = BatchControl
  import S = SnowflakeSafety
  import T = SnowflakeTheorems
  import SnowflakePromotion
  import DuckDbPromotion
  import DT = DuckDbTheorems
  import opened Pipeline

  // How a driver hands out the row stored under a key.
  type Render = (string, H.Version) -> Row

  function RowFor(versions: map<string, H.Version>, render: Render): string -> Row {
    (k: string) => if k in versions then render(k, versions[k]) else map[]
  }

  function Rendered(keys: seq<string>, versions: map<string, H.Version>, render: Render): seq<Row>
  {
    Images(keys, RowFor(versions, render))
  }

  // `rows` are the table's rows, once each and in any order.
  ghost predicate Presents(rows: seq<Row>, versions: map<string, H.Version>, render: Render) {
    exists keys :: ListsKeys(keys, versions) && rows == Rendered(keys, versions, render)
  }

  lemma CountedOnce<T>(a: seq<T>, x: T)
    requires NoRepeats(a)
    ensures multiset(a)[x] == if x in a then 1 else 0
  {
    OnceOnly(a, x);
    assert x in a <==> x in multiset(a);
  }

  lemma SameKeysPermute(a: seq<string>, b: seq<string>)
    requires NoRepeats(a) && NoRepeats(b) && forall k :: k in a <==> k in b
    ensures multiset(a) == multiset(b)
  {
    forall k ensures multiset(a)[k] == multiset(b)[k] {
      CountedOnce(a, k);
      CountedOnce(b, k);
    }
  }

  // `keys` lists the table's keys, once each.
  ghost predicate ListsKeys(keys: seq<string>, versions: map<string, H.Version>) {
    NoRepeats(keys) && forall k :: k in keys <==> k in versions
  }

  lemma RenderingsAgree(lib: Library, x: seq<string>, y: seq<string>, versions: map<string, H.Version>,
                        render: Render, columns: seq<ColumnRule>)
    requires ListsKeys(x, versions) && ListsKeys(y, versions)
    ensures var a, b := Rendered(x, versions, render), Rendered(y, versions, render);
            Relation(lib, a, columns) == Relation(lib, b, columns) && |a| == |b| && forall r :: r in b ==> r in a
  {
    SameKeysPermute(x, y);
    assert |multiset(x)| == |x| && |multiset(y)| == |y|;
    ImagesPermute(x, y, RowFor(versions, render));
    G.PermutedRelation(lib, Rendered(x, versions, render), Rendered(y, versions, render), columns);
  }

  // Two presentations of one table are one relation.
  lemma PresentationsAgree(lib: Library, a: seq<Row>, b: seq<Row>, versions: map<string, H.Version>, render: Render,
                           columns: seq<ColumnRule>)
    requires Presents(a, versions, render) && Presents(b, versions, render) && Readable(lib, a, columns)
    ensures OneRelation(lib, a, b, columns)
  {
    var x :| ListsKeys(x, versions) && a == Rendered(x, versions, render);
    var y :| ListsKeys(y, versions) && b == Rendered(y, versions, render);
    RenderingsAgree(lib, x, y, versions, render, columns);
  }

  // The source was read after some number of commands, from when on no batch up to the cutoff
  // was loading, and the rows read are the as-of rows at that time.
  ghost predicate ReadAsOf(readers: Readers, rule: EntityRule, commands: seq<H.Command>, cutoff: int,
                           render: Render) {
    readers.source(rule.name).Some? ==>
      exists n :: && 0 <= n <= |commands| && B.ClosedFrom(commands, n, cutoff)
                  && Presents(readers.source(rule.name).value, H.FetchRows(H.Run(commands[..n]).history, cutoff),
                              render)
  }

  lemma ReadsFinalHistory(readers: Readers, rule: EntityRule, commands: seq<H.Command>, cutoff: int, render: Render)
    requires ReadAsOf(readers, rule, commands, cutoff, render) && readers.source(rule.name).Some?
    ensures Presents(readers.source(rule.name).value, H.FetchRows(H.Run(commands).history, cutoff), render)
  {
    var n :| 0 <= n <= |commands| && B.ClosedFrom(commands, n, cutoff)
             && Presents(readers.source(rule.name).value, H.FetchRows(H.Run(commands[..n]).history, cutoff), render);
    B.ClosedBatchesStand(commands, n, cutoff);
  }

  // `rebuilt` is the reconstructed state as a table.
  ghost predicate Rebuilds(rebuilt: map<string, H.Version>, delivered: seq<CdcEvent>, entity: Entity, cutoff: int) {
    forall k :: A.AgreesOn(CurrentState(delivered, Some(cutoff)), rebuilt, entity, k)
  }

  lemma RebuiltIsHistory(rebuilt: map<string, H.Version>, delivered: seq<CdcEvent>, entity: Entity, cutoff: int,
                         s: H.Source)
    requires Rebuilds(rebuilt, delivered, entity, cutoff) && A.Agree(delivered, s, entity, cutoff)
    ensures rebuilt == H.FetchRows(s.history, cutoff)
  {
    var rows := H.FetchRows(s.history, cutoff);
    forall k ensures (k in rebuilt <==> k in rows) && (k in rebuilt ==> rebuilt[k] == rows[k]) {
      assert A.AgreesOn(CurrentState(delivered, Some(cutoff)), rebuilt, entity, k);
      assert A.AgreesOn(CurrentState(delivered, Some(cutoff)), rows, entity, k);
    }
  }

  // A passed validation of the run saw, as its candidate, the relation `rows` stand for.
  ghost predicate ValidatedAs(setup: Setup, events: seq<Event>, ctx: Context, rule: EntityRule, rows: seq<Row>) {
    exists e :: && e in events && PassedValidation(setup, e, ctx)
                && e.readers.candidate(rule.name).Some?
                && OneRelation(setup.lib, e.readers.candidate(rule.name).value, rows, rule.columns)
  }

  lemma VouchedAsReplayed(setup: Setup, events: seq<Event>, ctx: Context, rule: EntityRule, entity: Entity,
                          commands: seq<H.Command>, delivered: seq<CdcEvent>, render: Render,
                          rebuilt: map<string, H.Version>, rows: seq<Row>)
    requires Vouched(setup, events, ctx) && rule in setup.entities
    requires A.Agree(delivered, H.Run(commands), entity, ctx.batch)
    requires forall e :: e in events && PassedValidation(setup, e, ctx) ==>
               ReadAsOf(e.readers, rule, commands, ctx.batch, render)
    requires Rebuilds(rebuilt, delivered, entity, ctx.batch) && Presents(rows, rebuilt, render)
    ensures ValidatedAs(setup, events, ctx, rule, rows)
  {
    var e :| e in events && PassedValidation(setup, e, ctx)
             && forall r :: r in setup.entities ==> GateTheorems.EntityReconciled(setup.lib, r, e.readers);
    assert GateTheorems.EntityReconciled(setup.lib, rule, e.readers);
    ReadsFinalHistory(e.readers, rule, commands, ctx.batch, render);
    RebuiltIsHistory(rebuilt, delivered, entity, ctx.batch, H.Run(commands));
    PresentationsAgree(setup.lib, e.readers.source(rule.name).value, rows, rebuilt, render, rule.columns);
  }

  // The run of the source, its change stream, and how validations of the published run read it.
  ghost predicate ReadsTheSource(setup: Setup, events: seq<Event>, ctx: Context, rule: EntityRule, entity: Entity,
                                 commands: seq<H.Command>, stream: seq<CdcEvent>, delivered: seq<CdcEvent>,
                                 render: Render) {
    && rule in setup.entities
    && A.Monotone(H.Run(commands).history) && |H.Run(commands).history| == |H.Run(commands).changes|
    && A.DeletesAreStamped(H.Run(commands))
    && A.Emitted(stream, H.Run(commands), entity) && A.Delivers(delivered, stream)
    && forall e :: e in events && PassedValidation(setup, e, ctx) ==>
         ReadAsOf(e.readers, rule, commands, ctx.batch, render)
  }

  /** What is live was validated to be the data. Suppose the views of run R at batch b are
      live on Snowflake, batches were loaded in order with stamped deletes, and validations of R read
      the source once no batch up to b was loading any more. Then R's candidate, when validated, was readable
      throughout and the very relation that replaying the change stream up to b gives, in any
      order and with any replays. */
  lemma LiveIsTheReplayedStream(setup: Setup, events: seq<Event>, ctx: Context, rule: EntityRule, entity: Entity,
                                commands: seq<H.Command>, stream: seq<CdcEvent>, delivered: seq<CdcEvent>,
                                render: Render, rebuilt: map<string, H.Version>, rows: seq<Row>)
    requires Framing.Faithful(setup.lib) && forall r :: r in setup.entities ==> r.columns != []
    requires T.ShowsARun(setup.config)
    requires Run(setup, events).analytics == Some(S.ViewSet(setup.config, ctx))
    requires ReadsTheSource(setup, events, ctx, rule, entity, commands, stream, delivered, render)
    requires Rebuilds(rebuilt, delivered, entity, ctx.batch) && Presents(rows, rebuilt, render)
    ensures ValidatedAs(setup, events, ctx, rule, rows)
  {
    LiveIsVouchedOnSnowflake(setup, events);
    assert SnowflakePromotion.STATUS_VIEW in S.ViewSet(setup.config, ctx);
    var live: Context :| Run(setup, events).analytics == Some(S.ViewSet(setup.config, live))
        && Vouched(setup, events, live);
    T.SameViewSet(setup.config, live, ctx);
    A.CdcAgreesWithHistoryExactlyWhenStamped(commands, entity, stream, delivered);
    VouchedAsReplayed(setup, events, ctx, rule, entity, commands, delivered, render, rebuilt, rows);
  }

  /** The same of what is live on DuckDB. */
  lemma LiveIsTheReplayedStreamOnDuckDb(setup: Setup, events: seq<Event>, ctx: Context, rule: EntityRule,
                                        entity: Entity, commands: seq<H.Command>, stream: seq<CdcEvent>,
                                        delivered: seq<CdcEvent>, render: Render, rebuilt: map<string, H.Version>,
                                        rows: seq<Row>)
    requires Framing.Faithful(setup.lib) && forall r :: r in setup.entities ==> r.columns != []
    requires DT.ShowsARun(setup.config)
    requires DuckRun(setup, events).views == DT.ViewSet(setup.config, ctx)
    requires ReadsTheSource(setup, events, ctx, rule, entity, commands, stream, delivered, render)
    requires Rebuilds(rebuilt, delivered, entity, ctx.batch) && Presents(rows, rebuilt, render)
    ensures ValidatedAs(setup, events, ctx, rule, rows)
  {
    LiveIsVouchedOnDuckDb(setup, events);
    assert DuckDbPromotion.StatusName(setup.config) in DT.ViewSet(setup.config, ctx);
    var live: Context :| DuckRun(setup, events).views == DT.ViewSet(setup.config, live) && Vouched(setup, events, live);
    DT.SameViewSet(setup.config, live, ctx);
    A.CdcAgreesWithHistoryExactlyWhenStamped(commands, entity, stream, delivered);
    VouchedAsReplayed(setup, events, ctx, rule, entity, commands, delivered, render, rebuilt, rows);
  }
}
