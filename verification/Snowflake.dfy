/** The Snowflake side of publication: the tables and schemas the promotion
    touches, what each statement does to them on a connection with autocommit
    off, and a gateway object that may stop working after any step. */
module Snowflake {
  import opened Models

  datatype PublicationStatus = Pending | Published

  datatype PublicationRow = PublicationRow(runId: string, batch: int, status: PublicationStatus)

  datatype Tables = Tables(validations: seq<AuditRow>, publications: seq<PublicationRow>)

  /** `durable` is what a fresh connection reads; `session` adds this connection's
      uncommitted inserts and updates. Schemas change by DDL only, which is durable at once. */
  datatype Warehouse = Warehouse(
    durable: Tables, session: Tables, analytics: Option<Schema>, staging: Option<Schema>)

  datatype Statement =
    | EnsureObject                            // CREATE SCHEMA / TABLE IF NOT EXISTS, control schema
    | MergeAudit(row: AuditRow)
    | InsertPending(ctx: Context)
    | ReplaceStaging
    | StageView(name: string, view: View)
    | EnsureAnalytics
    | SwapSchemas
    | MarkPublished(runId: string)
    | DropStaging
    | CommitWork

  predicate IsDdl(s: Statement) {
    !s.MergeAudit? && !s.InsertPending? && !s.MarkPublished? && !s.CommitWork?
  }

  // Steps a crash can fall between: DDL first commits pending work, then takes effect.
  function Cost(s: Statement): nat { if IsDdl(s) then 2 else 1 }

  function Commit(w: Warehouse): Warehouse { w.(durable := w.session) }

  // Closing the connection drops whatever it has not committed.
  function Disconnect(w: Warehouse): Warehouse { w.(session := w.durable) }

  function Marked(rows: seq<PublicationRow>, runId: string): seq<PublicationRow> {
    if rows == [] then []
    else [if rows[0].runId == runId then rows[0].(status := Published) else rows[0]]
         + Marked(rows[1..], runId)
  }

  // A view is staged in an existing schema only, and a swap needs both schemas.
  predicate Accepts(w: Warehouse, s: Statement) {
    match s
    case StageView(_, _) => w.staging.Some?
    case SwapSchemas => w.staging.Some? && w.analytics.Some?
    case _ => true
  }

  function Effect(w: Warehouse, s: Statement): Warehouse
    requires Accepts(w, s)
  {
    match s
    case EnsureObject => w
    case MergeAudit(row) =>
      w.(session := w.session.(validations := Upsert(w.session.validations, row)))
    case InsertPending(ctx) =>
      w.(session := w.session.(publications :=
        w.session.publications + [PublicationRow(ctx.runId, ctx.batch, Pending)]))
    case ReplaceStaging => w.(staging := Some(map[]))
    case StageView(name, view) => w.(staging := Some(w.staging.value[name := view]))
    case EnsureAnalytics => if w.analytics.None? then w.(analytics := Some(map[])) else w
    case SwapSchemas => w.(analytics := w.staging, staging := w.analytics)
    case MarkPublished(runId) =>
      w.(session := w.session.(publications := Marked(w.session.publications, runId)))
    case DropStaging => w.(staging := None)
    case CommitWork => Commit(w)
  }

  function Apply(w: Warehouse, s: Statement): Warehouse
    requires Accepts(w, s)
  {
    Effect(if IsDdl(s) then Commit(w) else w, s)
  }

  // Where a run of statements got to. `left` is how many more steps the connection will live.
  datatype Progress = Progress(w: Warehouse, left: nat, done: bool)

  // One statement on a connection with `left` steps to live.
  function Step(w: Warehouse, left: nat, s: Statement): Progress {
    if left >= Cost(s) && Accepts(w, s) then Progress(Apply(w, s), left - Cost(s), true)
    else if left > 0 && IsDdl(s) then Progress(Commit(w), 0, false)
    else Progress(w, 0, false)
  }

  function Exec(w: Warehouse, left: nat, statements: seq<Statement>): Progress
    decreases |statements|
  {
    if statements == [] then Progress(w, left, true)
    else
      var p := Step(w, left, statements[0]);
      if p.done then Exec(p.w, p.left, statements[1..]) else p
  }

  lemma {:induction false} ExecSplit(w: Warehouse, left: nat, a: seq<Statement>, b: seq<Statement>)
    ensures Exec(w, left, a + b)
         == (var p := Exec(w, left, a); if p.done then Exec(p.w, p.left, b) else p)
    decreases |a|
  {
    if a == [] {
      assert a + b == b;
    } else {
      assert (a + b)[1..] == a[1..] + b;
      var p := Step(w, left, a[0]);
      if p.done { ExecSplit(p.w, p.left, a[1..], b); }
    }
  }

  lemma ExecCons(w: Warehouse, left: nat, s: Statement, rest: seq<Statement>)
    ensures Exec(w, left, [s] + rest)
         == (var p := Step(w, left, s); if p.done then Exec(p.w, p.left, rest) else p)
  {
    assert ([s] + rest)[1..] == rest;
  }

  // `SELECT MAX(batch_id) ... WHERE status = 'published'`
  function MaxPublished(rows: seq<PublicationRow>): (m: Option<int>)
    ensures m.Some? ==> exists p :: p in rows && p.status == Published && p.batch == m.value
    ensures forall p :: p in rows && p.status == Published ==> m.Some? && p.batch <= m.value
  {
    if rows == [] then None
    else
      var rest := MaxPublished(rows[1..]);
      if rows[0].status == Published && (rest.None? || rest.value < rows[0].batch)
      then Some(rows[0].batch) else rest
  }

  // `SELECT batch_id, status FROM publication_runs WHERE run_id = %s`, first row.
  function PublicationOf(rows: seq<PublicationRow>, runId: string): (r: Option<PublicationRow>)
    ensures r.Some? ==> r.value in rows && r.value.runId == runId
    ensures r.None? ==> forall p :: p in rows ==> p.runId != runId
  {
    if rows == [] then None
    else if rows[0].runId == runId then Some(rows[0])
    else PublicationOf(rows[1..], runId)
  }

  /** The connection. Every statement may be the one it dies in. */
  class Gateway {
    var w: Warehouse
    var left: nat

    constructor (w: Warehouse, left: nat)
      ensures this.w == w && this.left == left
    {
      this.w, this.left := w, left;
    }

    method Execute(s: Statement) returns (p: Progress)
      modifies this
      ensures p == Step(old(w), old(left), s)
      ensures w == p.w && left == p.left
    {
      if left < Cost(s) || !Accepts(w, s) {
        if left > 0 && IsDdl(s) {
          w := Commit(w);
        }
        left := 0;
        return Progress(w, left, false);
      }
      left := left - Cost(s);
      if IsDdl(s) {
        w := Commit(w);
      }
      w := Effect(w, s);
      p := Progress(w, left, true);
    }
  }
}
