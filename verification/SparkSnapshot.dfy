/** The silver snapshot of one entity (src/millrace/streaming/spark_job.py): filter, window,
    rank 1, drop deletes. A window breaks ties any way it likes, so its result is a relation. */
module SparkSnapshot {
  import opened Models
  import Json
  import opened CdcState
  import CdcTheorems
  import Parser
  import ParserTheorems

  // A row of the bronze table; tombstones carry neither batch nor position in the source.
  datatype BronzeRow = Change(event: CdcEvent) | TombstoneRow(keyText: string, partition: int, offset: int)

  // `batch_id <= cutoff AND NOT is_tombstone`
  ghost predicate Filtered(e: CdcEvent, bronze: seq<BronzeRow>, cutoff: int) {
    Change(e) in bronze && e.batch <= cutoff
  }

  // The window's ORDER BY, ascending: it stops at the offset.
  predicate PositionBelow(a: CdcEvent, b: CdcEvent) {
    || a.lsn < b.lsn
    || (a.lsn == b.lsn
        && (|| a.transactionOrder < b.transactionOrder
            || (a.transactionOrder == b.transactionOrder
                && (|| a.partition < b.partition
                    || (a.partition == b.partition && a.offset < b.offset)))))
  }

  // `ranked` holds, for every key_json among the filtered rows, a row numbered 1 for it.
  ghost predicate RankedFirst(ranked: map<string, CdcEvent>, bronze: seq<BronzeRow>, cutoff: int) {
    && (forall e :: Filtered(e, bronze, cutoff) ==> e.keyText in ranked)
    && (forall k :: k in ranked ==>
          && Filtered(ranked[k], bronze, cutoff) && ranked[k].keyText == k
          && forall e :: Filtered(e, bronze, cutoff) && e.keyText == k ==> !PositionBelow(ranked[k], e))
  }

  // A row of the snapshot; the payload columns are null when the event has no row.
  datatype SnapshotRow = SnapshotRow(
    entity: Entity, key: Json.JsonObject, keyText: string, row: Option<Json.JsonObject>, batch: int, lsn: int)

  function SnapshotOf(e: CdcEvent): SnapshotRow { SnapshotRow(e.entity, e.key, e.keyText, RowOf(e), e.batch, e.lsn) }

  // `_rank = 1 AND operation <> 'd'`, with row_json parsed.
  function Snapshot(ranked: map<string, CdcEvent>): map<string, SnapshotRow> {
    map k | k in ranked && !ranked[k].operation.Delete? :: SnapshotOf(ranked[k])
  }

  // The record build_current_state makes, as a row of the snapshot.
  function AsSnapshot(r: SnapshotRecord): SnapshotRow {
    SnapshotRow(r.entity, r.key, r.keyText, Some(r.row), r.batch, r.lsn)
  }

  // Bronze rows read back as events.
  function Changes(bronze: seq<BronzeRow>): seq<CdcEvent> {
    if bronze == [] then []
    else (if bronze[0].Change? then [bronze[0].event] else []) + Changes(bronze[1..])
  }

  lemma {:induction false} ChangesElements(bronze: seq<BronzeRow>)
    ensures forall e :: e in Changes(bronze) <==> Change(e) in bronze
  {
    if bronze != [] {
      ChangesElements(bronze[1..]);
      assert forall r :: r in bronze <==> r == bronze[0] || r in bronze[1..];
    }
  }

  // One topic of one entity: a place in the log holds one record, however often it is delivered.
  ghost predicate OneRecordPerPlace(bronze: seq<BronzeRow>, entity: Entity) {
    && (forall e :: Change(e) in bronze ==> e.entity == entity)
    && (forall a, b :: Change(a) in bronze && Change(b) in bronze && a.partition == b.partition && a.offset == b.offset
                       ==> a == b)
  }

  lemma WindowPicksTheWinner(bronze: seq<BronzeRow>, entity: Entity, cutoff: int, ranked: map<string, CdcEvent>,
                            k: string)
    requires OneRecordPerPlace(bronze, entity) && RankedFirst(ranked, bronze, cutoff)
    ensures var latest := Latest(Changes(bronze), Some(cutoff));
            var key := CanonicalKey(entity, k);
            (k in ranked <==> key in latest) && (k in ranked ==> latest[key] == ranked[k])
  {
    var events := Changes(bronze);
    ChangesElements(bronze);
    var key := CanonicalKey(entity, k);
    CdcTheorems.LatestIsMaximal(events, Some(cutoff), key);
    forall e | CdcTheorems.Competes(e, events, Some(cutoff), key)
      ensures e.keyText == k && Filtered(e, bronze, cutoff)
    {
      SameEntityKeys(entity, e.keyText, k);
    }
    if k in ranked {
      assert CdcTheorems.Competes(ranked[k], events, Some(cutoff), key);
      var w := Latest(events, Some(cutoff))[key];
      assert !PositionBelow(ranked[k], w) && !OrderBelow(w, ranked[k]);
    }
  }

  // Snapshot and reconstructed state say the same of one key.
  ghost predicate SameRecord(snapshot: map<string, SnapshotRow>, state: map<string, SnapshotRecord>, entity: Entity,
                             k: string) {
    var key := CanonicalKey(entity, k);
    (k in snapshot <==> key in state) && (k in snapshot ==> snapshot[k] == AsSnapshot(state[key]))
  }

  /** Whatever way the window breaks ties, snapshot and latest-wins state say the same of a
      key exactly when its winner, if not a delete, has a row. */
  lemma SnapshotIsStateExactlyWhen(bronze: seq<BronzeRow>, entity: Entity, cutoff: int, ranked: map<string, CdcEvent>,
                                   k: string)
    requires OneRecordPerPlace(bronze, entity) && RankedFirst(ranked, bronze, cutoff)
    ensures SameRecord(Snapshot(ranked), CurrentState(Changes(bronze), Some(cutoff)), entity, k)
       <==> (k in ranked && !ranked[k].operation.Delete? ==> RowOf(ranked[k]).Some?)
  {
    WindowPicksTheWinner(bronze, entity, cutoff, ranked, k);
  }

  /** Over parsed events every winner has a row, so the snapshot is the latest-wins state. */
  lemma SnapshotIsCurrentState(tools: Parser.Tools, messages: seq<ParserTheorems.Delivery>, bronze: seq<BronzeRow>,
                               entity: Entity, cutoff: int, ranked: map<string, CdcEvent>, k: string)
    requires OneRecordPerPlace(bronze, entity) && RankedFirst(ranked, bronze, cutoff)
    requires forall e :: Change(e) in bronze ==> e in ParserTheorems.Accepted(tools, messages)
    ensures SameRecord(Snapshot(ranked), CurrentState(Changes(bronze), Some(cutoff)), entity, k)
  {
    ParserTheorems.AcceptedAreComplete(tools, messages);
    SnapshotIsStateExactlyWhen(bronze, entity, cutoff, ranked, k);
  }
}
