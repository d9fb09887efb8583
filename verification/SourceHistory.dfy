/** One retail table of the source database, the triggers that capture its mutations
    (infra/postgres/01_schema.sql) and the as-of queries over the captured history
    (src/millrace/validation/readers.py). */
module SourceHistory {
  import opened Models
  import Json

  datatype BatchState = Loading | Completed | Failed

  // The session setting millrace.batch_id, already parsed.
  datatype Setting = Unset | NotABigint | Batch(batch: int)

  // A row without its batch_id column.
  type Body = b: Json.JsonObject | "batch_id" !in b witness map[]

  // `key` is the JSON text of the primary key.
  datatype TableRow = TableRow(key: string, body: Body, batch: int)

  datatype HistoryOperation = I | U | D

  datatype HistoryRow = HistoryRow(historyId: int, operation: HistoryOperation, batch: int, key: string, body: Body)

  // What the write-ahead log says of a mutation; replica identity is full.
  datatype Change = Change(before: Option<TableRow>, after: Option<TableRow>)

  datatype Mutation = Insert(row: TableRow) | Update(row: TableRow) | Delete(key: string)

  datatype Source = Source(
    setting: Setting, batches: map<int, BatchState>, table: map<string, TableRow>,
    history: seq<HistoryRow>, nextId: int, changes: seq<Change>)

  // control.active_batch_id(); every None is an exception.
  function ActiveBatch(s: Source): Option<int> {
    match s.setting
    case Batch(b) => if b in s.batches && s.batches[b] == Loading then Some(b) else None
    case _ => None
  }

  // audit.capture_*: the history row of one row change.
  function Capture(s: Source, operation: HistoryOperation, row: TableRow): Option<HistoryRow> {
    match ActiveBatch(s)
    case None => None
    case Some(b) =>
      if operation != D && row.batch != b then None
      else Some(HistoryRow(s.nextId, operation, b, row.key, row.body))
  }

  function Recorded(s: Source, h: HistoryRow, table: map<string, TableRow>, change: Change): Source {
    s.(table := table, history := s.history + [h], nextId := s.nextId + 1, changes := s.changes + [change])
  }

  /** One statement on one row; None when the trigger or the primary key rejects it. An
      update or delete that matches no row touches nothing and fires no trigger. */
  function Mutate(s: Source, m: Mutation): Option<Source> {
    match m
    case Insert(row) =>
      if row.key in s.table then None
      else (match Capture(s, I, row)
            case None => None
            case Some(h) => Some(Recorded(s, h, s.table[row.key := row], Change(None, Some(row)))))
    case Update(row) =>
      if row.key !in s.table then Some(s)
      else (match Capture(s, U, row)
            case None => None
            case Some(h) => Some(Recorded(s, h, s.table[row.key := row], Change(Some(s.table[row.key]), Some(row)))))
    case Delete(key) =>
      if key !in s.table then Some(s)
      else (match Capture(s, D, s.table[key])
            case None => None
            case Some(h) => Some(Recorded(s, h, s.table - {key}, Change(Some(s.table[key]), None))))
  }

  datatype Command = Configure(setting: Setting) | SetState(batch: int, state: BatchState) | Do(m: Mutation)

  const EMPTY := Source(Unset, map[], map[], [], 1, [])

  function Perform(s: Source, c: Command): Source {
    match c
    case Configure(setting) => s.(setting := setting)
    case SetState(batch, state) => s.(batches := s.batches[batch := state])
    case Do(m) => if Mutate(s, m).Some? then Mutate(s, m).value else s
  }

  function Run(commands: seq<Command>): Source {
    if commands == [] then EMPTY
    else Perform(Run(commands[..|commands| - 1]), commands[|commands| - 1])
  }

  // ---- the table with its triggers ---------------------------------------------------------

  class SourceTable {
    var setting: Setting
    var batches: map<int, BatchState>
    var table: map<string, TableRow>
    var history: seq<HistoryRow>
    var nextId: int
    var changes: seq<Change>

    constructor ()
      ensures Value() == EMPTY
    {
      setting, batches, table, history, nextId, changes := Unset, map[], map[], [], 1, [];
    }

    function Value(): Source
      reads this
    {
      Source(setting, batches, table, history, nextId, changes)
    }

    method ActiveBatchId() returns (batch: Option<int>)
      ensures batch == ActiveBatch(Value())
    {
      if !setting.Batch? { return None; }
      if setting.batch !in batches || batches[setting.batch] != Loading { return None; }
      batch := Some(setting.batch);
    }

    // The trigger: checks the active batch, then appends to the history.
    method CaptureRow(operation: HistoryOperation, row: TableRow) returns (captured: bool)
      modifies `history, `nextId
      ensures captured == Capture(old(Value()), operation, row).Some?
      ensures if captured
              then history == old(history) + [Capture(old(Value()), operation, row).value] && nextId == old(nextId) + 1
              else history == old(history) && nextId == old(nextId)
    {
      var eventBatch := ActiveBatchId();
      if eventBatch.None? { return false; }
      if operation != D && row.batch != eventBatch.value { return false; }
      history := history + [HistoryRow(nextId, operation, eventBatch.value, row.key, row.body)];
      nextId := nextId + 1;
      captured := true;
    }

    method InsertRow(row: TableRow) returns (ok: bool)
      modifies this
      ensures ok == Mutate(old(Value()), Insert(row)).Some?
      ensures Value() == Perform(old(Value()), Do(Insert(row)))
    {
      if row.key in table { return false; }
      ok := CaptureRow(I, row);
      if ok {
        table := table[row.key := row];
        changes := changes + [Change(None, Some(row))];
      }
    }

    method UpdateRow(row: TableRow) returns (ok: bool)
      modifies this
      ensures ok == Mutate(old(Value()), Update(row)).Some?
      ensures Value() == Perform(old(Value()), Do(Update(row)))
    {
      if row.key !in table { return true; }
      var before := table[row.key];
      ok := CaptureRow(U, row);
      if ok {
        table := table[row.key := row];
        changes := changes + [Change(Some(before), Some(row))];
      }
    }

    method DeleteRow(key: string) returns (ok: bool)
      modifies this
      ensures ok == Mutate(old(Value()), Delete(key)).Some?
      ensures Value() == Perform(old(Value()), Do(Delete(key)))
    {
      if key !in table { return true; }
      var before := table[key];
      ok := CaptureRow(D, before);
      if ok {
        table := table - {key};
        changes := changes + [Change(Some(before), None)];
      }
    }
  }

  // ---- the as-of queries --------------------------------------------------------------------

  // `ORDER BY batch_id, history_id`, ascending.
  predicate VersionBelow(a: HistoryRow, b: HistoryRow) {
    a.batch < b.batch || (a.batch == b.batch && a.historyId < b.historyId)
  }

  // ROW_NUMBER() = 1 per key among the rows with batch_id <= cutoff, newest first.
  function NewestRows(history: seq<HistoryRow>, cutoff: int): map<string, HistoryRow> {
    if history == [] then map[]
    else
      var newest := NewestRows(history[..|history| - 1], cutoff);
      var h := history[|history| - 1];
      if h.batch > cutoff || (h.key in newest && !VersionBelow(newest[h.key], h)) then newest
      else newest[h.key := h]
  }

  // A source row as the snapshot reader returns it, with its batch.
  datatype Version = Version(body: Body, batch: int)

  // PostgresHistoryReader.fetch_rows, keyed.
  function FetchRows(history: seq<HistoryRow>, cutoff: int): map<string, Version> {
    var newest := NewestRows(history, cutoff);
    map k | k in newest && newest[k].operation != D :: Version(newest[k].body, newest[k].batch)
  }

  // PostgresTombstoneReader.fetch_deleted_keys
  function FetchDeletedKeys(history: seq<HistoryRow>, cutoff: int): set<string> {
    var newest := NewestRows(history, cutoff);
    set k | k in newest && newest[k].operation == D
  }
}
