/** The DuckDB side of publication: one transaction around the gates, the view
    replacements and the publication row. */
module DuckDb {
  import opened Models

  // publication_runs; run_id is its primary key.
  datatype PublicationRow = PublicationRow(runId: string, batch: int, publishedAt: int)

  // DuckDB ignores the case of names: schemas are kept in lower case, and so are views, each
  // under its schema's name, a dot and its own.
  datatype Database = Database(
    schemas: set<string>, views: Schema, validations: seq<AuditRow>, publications: seq<PublicationRow>)

  datatype Statement =
    | EnsureObject                       // CREATE ... IF NOT EXISTS in the control schema
    | EnsureSchema(schema: string)
    | ReplaceView(name: string, view: View)
    | InsertPublication(row: PublicationRow)
    | UpsertAudit(audit: AuditRow)

  // `name.rsplit(".", maxsplit=1)[0]`, or nothing for an undotted name.
  function SchemaOf(name: string): Option<string> {
    if name == "" then None
    else
      match SchemaOf(name[1..])
      case Some(rest) => Some([name[0]] + rest)
      case None => if name[0] == '.' then Some("") else None
  }

  // The schema of undotted names, which every database has.
  const MAIN := "main"

  // A view needs its schema, and a run has at most one publication row.
  predicate Accepts(d: Database, s: Statement) {
    match s
    case ReplaceView(name, _) => SchemaOf(name).Some? ==> SchemaOf(name).value in d.schemas + {MAIN}
    case InsertPublication(row) => PublicationOf(d.publications, row.runId).None?
    case _ => true
  }

  function Apply(d: Database, s: Statement): Database {
    match s
    case EnsureObject => d
    case EnsureSchema(schema) => d.(schemas := d.schemas + {schema})
    case ReplaceView(name, view) => d.(views := d.views[name := view])
    case InsertPublication(row) => d.(publications := d.publications + [row])
    case UpsertAudit(audit) => d.(validations := Upsert(d.validations, audit))
  }

  datatype Progress = Progress(d: Database, left: nat, done: bool)

  // One statement on a connection that dies after `left` more.
  function Step(d: Database, left: nat, s: Statement): Progress {
    if left > 0 && Accepts(d, s) then Progress(Apply(d, s), left - 1, true)
    else Progress(d, 0, false)
  }

  function Exec(d: Database, left: nat, statements: seq<Statement>): Progress
    decreases |statements|
  {
    if statements == [] then Progress(d, left, true)
    else
      var p := Step(d, left, statements[0]);
      if p.done then Exec(p.d, p.left, statements[1..]) else p
  }

  lemma {:induction false} ExecSplit(d: Database, left: nat, a: seq<Statement>, b: seq<Statement>)
    ensures Exec(d, left, a + b)
         == (var p := Exec(d, left, a); if p.done then Exec(p.d, p.left, b) else p)
    decreases |a|
  {
    if a == [] {
      assert a + b == b;
    } else {
      assert (a + b)[1..] == a[1..] + b;
      var p := Step(d, left, a[0]);
      if p.done { ExecSplit(p.d, p.left, a[1..], b); }
    }
  }

  lemma ExecCons(d: Database, left: nat, s: Statement, rest: seq<Statement>)
    ensures Exec(d, left, [s] + rest)
         == (var p := Step(d, left, s); if p.done then Exec(p.d, p.left, rest) else p)
  {
  }

  // `SELECT MAX(batch_id) FROM publication_runs`
  function MaxBatch(rows: seq<PublicationRow>): (m: Option<int>)
    ensures m.Some? ==> exists p :: p in rows && p.batch == m.value
    ensures forall p :: p in rows ==> m.Some? && p.batch <= m.value
  {
    if rows == [] then None
    else
      var rest := MaxBatch(rows[1..]);
      if rest.None? || rest.value < rows[0].batch then Some(rows[0].batch) else rest
  }

  function PublicationOf(rows: seq<PublicationRow>, runId: string): (r: Option<PublicationRow>)
    ensures r.Some? ==> r.value in rows && r.value.runId == runId
    ensures r.None? ==> forall p :: p in rows ==> p.runId != runId
  {
    if rows == [] then None
    else if rows[0].runId == runId then Some(rows[0])
    else PublicationOf(rows[1..], runId)
  }

  /** The connection. Outside a transaction a statement is durable at once. */
  class Connection {
    var durable: Database
    var transaction: Option<Database>
    var left: nat

    constructor (d: Database, left: nat)
      ensures durable == d && transaction == None && this.left == left
    {
      durable, transaction, this.left := d, None, left;
    }

    method Execute(s: Statement) returns (p: Progress)
      modifies this
      ensures p == Step(if old(transaction).Some? then old(transaction).value else old(durable), old(left), s)
      ensures left == p.left
      ensures old(transaction).Some? ==> transaction == Some(p.d) && durable == old(durable)
      ensures old(transaction).None? ==> transaction == None && durable == p.d
    {
      var d := if transaction.Some? then transaction.value else durable;
      if left == 0 || !Accepts(d, s) {
        left := 0;
        return Progress(d, 0, false);
      }
      left := left - 1;
      d := Apply(d, s);
      if transaction.Some? { transaction := Some(d); } else { durable := d; }
      p := Progress(d, left, true);
    }

    method Begin() returns (ok: bool)
      requires transaction.None?
      modifies this
      ensures durable == old(durable)
      ensures ok == (old(left) > 0)
      ensures left == (if ok then old(left) - 1 else 0)
      ensures transaction == (if ok then Some(durable) else None)
    {
      ok := left > 0;
      if ok { left, transaction := left - 1, Some(durable); }
    }

    method Commit() returns (ok: bool)
      requires transaction.Some?
      modifies this
      ensures ok == (old(left) > 0)
      ensures left == (if ok then old(left) - 1 else 0)
      ensures if ok then durable == old(transaction).value && transaction == None
              else durable == old(durable) && transaction == old(transaction)
    {
      ok := left > 0;
      if ok { durable, transaction, left := transaction.value, None, left - 1; }
    }

    // Rolling back needs no cooperation: a lost connection has the same effect.
    method Rollback()
      modifies this
      ensures durable == old(durable) && transaction == None && left == old(left)
    {
      transaction := None;
    }
  }
}
