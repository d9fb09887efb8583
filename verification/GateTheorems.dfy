/** What a validation report means: a passed report says that every candidate relation is the
    source relation; over comparable rows it says exactly that; and a fault confined to one
    column is named by one check. */
module GateTheorems {
  import opened Models
  import opened Canonical
  import Framing
  import opened Reconciliation
  import opened Redundancy
  import opened Gate

  // What the configuration's own validation guarantees of an entity.
  ghost predicate WellFormed(entity: EntityRule) {
    && entity.columns != [] && entity.keyColumns != []
    && (forall i, j :: 0 <= i < j < |entity.columns| ==> entity.columns[i].name != entity.columns[j].name)
    && (forall n :: n in entity.keyColumns ==> Find(entity.columns, n).Some?)
    && (forall p, n :: p in entity.partitions && n in p.columns ==> Find(entity.columns, n).Some?)
    && (forall g :: g in entity.aggregates ==> Find(entity.columns, g.column).Some?)
    && (forall g, n :: g in entity.aggregates && n in g.groupBy ==> Find(entity.columns, n).Some?)
  }

  function Keys(entity: EntityRule): seq<ColumnRule>
    requires WellFormed(entity)
  {
    Resolve(entity.columns, entity.keyColumns).value
  }

  // ---- soundness -----------------------------------------------------------------------------

  // The key texts of some row.
  ghost predicate IsKeyOf(lib: Library, rows: seq<Row>, keys: seq<ColumnRule>, k: seq<string>) {
    exists r :: r in rows && Cells(lib, r, keys) == Some(k)
  }

  // All keys are readable, and no row of the candidate has that of a tombstone.
  ghost predicate NoneSurvives(lib: Library, candidate: seq<Row>, deleted: seq<Row>, keys: seq<ColumnRule>) {
    && Readable(lib, candidate, keys) && Readable(lib, deleted, keys)
    && forall r, q :: r in candidate && q in deleted ==> Cells(lib, r, keys) != Cells(lib, q, keys)
  }

  // What the gate promises of one entity.
  ghost predicate Reconciled(lib: Library, entity: EntityRule, source: seq<Row>, candidate: seq<Row>,
                            deleted: seq<Row>) {
    var keys := Resolve(entity.columns, entity.keyColumns);
    && keys.Some?
    && OneRelation(lib, source, candidate, entity.columns)
    && (entity.allowEmpty || source != [])
    && (entity.readsDeletes ==> NoneSurvives(lib, candidate, deleted, keys.value))
  }

  lemma PassedChecksums(lib: Library, entity: EntityRule, source: seq<Row>, candidate: seq<Row>, keys: seq<ColumnRule>)
    requires ChecksumResults(lib, entity, source, candidate, keys).Some?
    requires AllPassed(ChecksumResults(lib, entity, source, candidate, keys).value)
    ensures ChecksumsPass(lib, source, candidate, entity.columns, keys)
  {
    var checks := ChecksumResults(lib, entity, source, candidate, keys).value;
    forall c | c in entity.columns
      ensures Checksum(lib, source, c, keys).Some?
           && Checksum(lib, source, c, keys) == Checksum(lib, candidate, c, keys)
    {
      var i :| 0 <= i < |entity.columns| && entity.columns[i] == c;
      assert ChecksumCheck(lib, entity, source, candidate, keys, entity.columns[i]) == Some(checks[i]);
      assert checks[i] in checks;
    }
  }

  lemma InOrderHolds(presence: CheckResult, count: CheckResult, partitions: seq<CheckResult>, deletes: seq<CheckResult>,
                     checksums: seq<CheckResult>, aggregates: seq<CheckResult>)
    ensures AllPassed(InOrder(presence, count, partitions, deletes, checksums, aggregates))
       <==> && presence.passed && count.passed && AllPassed(partitions) && AllPassed(deletes)
            && AllPassed(checksums) && AllPassed(aggregates)
  {
  }

  // When all checks of an entity pass.
  lemma EntityPasses(lib: Library, entity: EntityRule, a: seq<Row>, b: seq<Row>, deleted: seq<Row>)
    requires EntityChecks(lib, entity, a, b, deleted).Some?
    ensures var keys := Resolve(entity.columns, entity.keyColumns).value;
            AllPassed(EntityChecks(lib, entity, a, b, deleted).value)
            <==> && PresenceCheck(entity, a, b).passed && CountCheck(entity, a, b).passed
                 && AllPassed(PartitionResults(lib, entity, a, b).value)
                 && (entity.readsDeletes ==> DeleteCheck(lib, entity, b, deleted, keys).value.passed)
                 && AllPassed(ChecksumResults(lib, entity, a, b, keys).value)
                 && AllPassed(AggregateResults(lib, entity, a, b).value)
  {
    var keys := Resolve(entity.columns, entity.keyColumns).value;
    var deletes := if entity.readsDeletes then [DeleteCheck(lib, entity, b, deleted, keys).value] else [];
    InOrderHolds(PresenceCheck(entity, a, b), CountCheck(entity, a, b), PartitionResults(lib, entity, a, b).value,
                 deletes,
                 ChecksumResults(lib, entity, a, b, keys).value, AggregateResults(lib, entity, a, b).value);
  }

  /** What the first two checks decide, each by itself, and what they show. */
  lemma FirstChecksDecide(entity: EntityRule, a: seq<Row>, b: seq<Row>)
    ensures var c := PresenceCheck(entity, a, b);
            && (c.passed <==> entity.allowEmpty || ((exists r :: r in a) && exists q :: q in b))
            && c.name == "non_empty" && c.kind == PresenceKind && c.actual == PairValue(|a|, |b|)
    ensures var c := CountCheck(entity, a, b);
            && (c.passed <==> |a| == |b|)
            && c.name == "row_count" && c.kind == CountKind
            && c.expected == CountValue(|a|) && c.actual == CountValue(|b|)
  {
    if a != [] { assert a[0] in a; }
    if b != [] { assert b[0] in b; }
  }

  lemma KeyTuplesAre(lib: Library, rows: seq<Row>, keys: seq<ColumnRule>)
    ensures KeyTuplesOf(lib, rows, keys).Some? <==> Readable(lib, rows, keys)
    ensures KeyTuplesOf(lib, rows, keys).Some? ==>
              forall k :: k in KeyTuplesOf(lib, rows, keys).value <==> IsKeyOf(lib, rows, keys, k)
  {
    match WithKeys(lib, rows, keys)
    case None =>
      var i :| 0 <= i < |rows| && Cells(lib, rows[i], keys).None?;
      assert rows[i] in rows;
    case Some(keyed) =>
      forall k ensures k in KeyTuplesOf(lib, rows, keys).value <==> IsKeyOf(lib, rows, keys, k) {
        if k in KeyTuplesOf(lib, rows, keys).value {
          var i :| 0 <= i < |keyed| && keyed[i].key == k;
          assert rows[i] in rows && Cells(lib, rows[i], keys) == Some(k);
        }
        if IsKeyOf(lib, rows, keys, k) {
          var i :| 0 <= i < |rows| && Cells(lib, rows[i], keys) == Some(k);
          assert keyed[i] in keyed && keyed[i].key == k;
        }
      }
  }

  lemma SurvivorsShareAKey(lib: Library, candidate: seq<Row>, deleted: seq<Row>, keys: seq<ColumnRule>)
    requires Readable(lib, candidate, keys) && Readable(lib, deleted, keys)
    ensures NoneSurvives(lib, candidate, deleted, keys)
       <==> forall k :: !(IsKeyOf(lib, candidate, keys, k) && IsKeyOf(lib, deleted, keys, k))
  {
    forall r, q | r in candidate && q in deleted && Cells(lib, r, keys) == Cells(lib, q, keys)
      ensures exists k :: IsKeyOf(lib, candidate, keys, k) && IsKeyOf(lib, deleted, keys, k)
    {
      var k := Cells(lib, r, keys).value;
      assert IsKeyOf(lib, candidate, keys, k) && IsKeyOf(lib, deleted, keys, k);
    }
  }

  // The check shows the keys of tombstones that rows of the candidate have.
  ghost predicate ShowsSurvivors(lib: Library, check: CheckResult, candidate: seq<Row>, deleted: seq<Row>,
                                 keys: seq<ColumnRule>) {
    && check.name == "deleted_absent" && check.kind == DeleteKind && check.actual.KeyTuples?
    && forall k :: k in check.actual.keys <==> IsKeyOf(lib, candidate, keys, k) && IsKeyOf(lib, deleted, keys, k)
  }

  /** The delete check passes exactly when all keys are readable and no tombstoned key is in the
      candidate; what it shows are the keys that are. */
  lemma DeleteCheckDecides(lib: Library, entity: EntityRule, candidate: seq<Row>, deleted: seq<Row>,
                           keys: seq<ColumnRule>)
    ensures var check := DeleteCheck(lib, entity, candidate, deleted, keys);
            && (check.Some? <==> Readable(lib, candidate, keys) && Readable(lib, deleted, keys))
            && (check.Some? && check.value.passed <==> NoneSurvives(lib, candidate, deleted, keys))
            && (check.Some? ==> ShowsSurvivors(lib, check.value, candidate, deleted, keys))
  {
    KeyTuplesAre(lib, candidate, keys);
    KeyTuplesAre(lib, deleted, keys);
    var check := DeleteCheck(lib, entity, candidate, deleted, keys);
    if check.Some? {
      var still := KeyTuplesOf(lib, deleted, keys).value * KeyTuplesOf(lib, candidate, keys).value;
      assert check.value.actual.keys == still && ShowsSurvivors(lib, check.value, candidate, deleted, keys);
      assert still != {} ==> exists k :: k in still;
      SurvivorsShareAKey(lib, candidate, deleted, keys);
    }
  }

  lemma PassedChecksumsMean(lib: Library, entity: EntityRule, source: seq<Row>, candidate: seq<Row>,
                            keys: seq<ColumnRule>)
    requires Framing.Faithful(lib) && entity.columns != []
    requires ChecksumResults(lib, entity, source, candidate, keys).Some?
    requires AllPassed(ChecksumResults(lib, entity, source, candidate, keys).value)
    ensures OneRelation(lib, source, candidate, entity.columns)
  {
    PassedChecksums(lib, entity, source, candidate, keys);
    PassingIsAlike(lib, source, candidate, entity.columns, keys);
    AgreeingReads(lib, source, candidate, entity.columns, keys);
    AlikeIsOneRelation(lib, source, candidate, entity.columns, keys);
  }

  /** Passing checks of one entity: every cell on both sides has a canonical text, the sides
      are one relation of these texts, and no tombstoned key survives. Key uniqueness is not
      needed. */
  lemma EntityIsSound(lib: Library, entity: EntityRule, source: seq<Row>, candidate: seq<Row>, deleted: seq<Row>)
    requires Framing.Faithful(lib) && entity.columns != []
    requires EntityChecks(lib, entity, source, candidate, deleted).Some?
    requires AllPassed(EntityChecks(lib, entity, source, candidate, deleted).value)
    ensures Reconciled(lib, entity, source, candidate, deleted)
  {
    var keys := Resolve(entity.columns, entity.keyColumns).value;
    EntityPasses(lib, entity, source, candidate, deleted);
    PassedChecksumsMean(lib, entity, source, candidate, keys);
    DeleteCheckDecides(lib, entity, candidate, deleted, keys);
  }

  // Everything was fetched, and is reconciled.
  ghost predicate EntityReconciled(lib: Library, entity: EntityRule, readers: Readers) {
    var source, candidate := readers.source(entity.name), readers.candidate(entity.name);
    && source.Some? && candidate.Some?
    && (entity.readsDeletes ==> readers.tombstones.Some? && readers.tombstones.value(entity.name).Some?)
    && Reconciled(lib, entity, source.value, candidate.value,
                  if entity.readsDeletes then readers.tombstones.value(entity.name).value else [])
  }

  lemma {:induction false} AllChecksCover(lib: Library, entities: seq<EntityRule>, readers: Readers)
    ensures AllPassed(AllChecks(lib, entities, readers))
       <==> forall e :: e in entities ==> AllPassed(Guarded(lib, e, readers))
    ensures AllChecks(lib, entities, readers) == [] <==> forall e :: e in entities ==> Guarded(lib, e, readers) == []
  {
    if entities != [] {
      var front, last := entities[..|entities| - 1], entities[|entities| - 1];
      assert entities == front + [last];
      AllChecksCover(lib, front, readers);
      var a, b := AllChecks(lib, front, readers), Guarded(lib, last, readers);
      assert forall c :: c in a + b <==> c in a || c in b;
    }
  }

  lemma AlwaysChecked(lib: Library, entity: EntityRule, readers: Readers)
    ensures Guarded(lib, entity, readers) != []
  {
  }

  /** The gate is sound: a passed report means that every configured entity was read on both
      sides, that both sides are one canonical relation, and that no deleted key survives. */
  lemma GateIsSound(lib: Library, ctx: Context, entities: seq<EntityRule>, readers: Readers)
    requires Framing.Faithful(lib) && forall e :: e in entities ==> e.columns != []
    requires Report(ctx, AllChecks(lib, entities, readers)).passed
    ensures forall e :: e in entities ==> EntityReconciled(lib, e, readers)
  {
    AllChecksCover(lib, entities, readers);
    forall e | e in entities ensures EntityReconciled(lib, e, readers) {
      FailureFails(e);
      EntityIsSound(lib, e, readers.source(e.name).value, readers.candidate(e.name).value,
                    DeletedKeys(e, readers).value);
    }
  }

  lemma FailureFails(e: EntityRule)
    ensures !AllPassed([QueryFailure(e)])
  {
  }

  /** A reader that raises, or a missing tombstone reader, never yields a passed report. */
  lemma UnreadableNeverPasses(lib: Library, ctx: Context, entities: seq<EntityRule>, readers: Readers, e: EntityRule)
    requires e in entities
    requires || readers.source(e.name).None? || readers.candidate(e.name).None?
             || (e.readsDeletes && (readers.tombstones.None? || readers.tombstones.value(e.name).None?))
    ensures !Report(ctx, AllChecks(lib, entities, readers)).passed
  {
    AllChecksCover(lib, entities, readers);
    assert QueryFailure(e) in Guarded(lib, e, readers);
  }

  // ---- redundancy ------------------------------------------------------------------------------

  lemma {:induction false} Resolves(columns: seq<ColumnRule>, names: seq<string>)
    requires forall n :: n in names ==> Find(columns, n).Some?
    ensures Resolve(columns, names).Some?
    ensures forall c :: c in Resolve(columns, names).value ==> c in columns && c.name in names
  {
    if names != [] { Resolves(columns, names[1..]); }
  }

  // The columns an entity's partitions and aggregates mention lie in `columns`.
  ghost predicate Mentions(entity: EntityRule, columns: seq<ColumnRule>)
    requires WellFormed(entity)
  {
    && (forall p, n :: p in entity.partitions && n in p.columns ==> Find(entity.columns, n).value in columns)
    && (forall g :: g in entity.aggregates ==> Find(entity.columns, g.column).value in columns)
    && (forall g, n :: g in entity.aggregates && n in g.groupBy ==> Find(entity.columns, n).value in columns)
  }

  lemma {:induction false} ResolvesWithin(all: seq<ColumnRule>, names: seq<string>, columns: seq<ColumnRule>)
    requires forall n :: n in names ==> Find(all, n).Some? && Find(all, n).value in columns
    ensures Resolve(all, names).Some? && forall c :: c in Resolve(all, names).value ==> c in columns
  {
    if names != [] { ResolvesWithin(all, names[1..], columns); }
  }

  lemma PartitionsPass(lib: Library, entity: EntityRule, a: seq<Row>, b: seq<Row>, columns: seq<ColumnRule>,
                       keys: seq<ColumnRule>)
    requires WellFormed(entity) && Mentions(entity, columns) && Agreeing(lib, a, b, columns, keys)
    ensures PartitionResults(lib, entity, a, b).Some? && AllPassed(PartitionResults(lib, entity, a, b).value)
  {
    forall p | p in entity.partitions
      ensures PartitionCheck(lib, entity, a, b, p).Some? && PartitionCheck(lib, entity, a, b, p).value.passed
    {
      ResolvesWithin(entity.columns, p.columns, columns);
      AgreeingCounts(lib, a, b, columns, keys, Resolve(entity.columns, p.columns).value);
    }
    var results := PartitionResults(lib, entity, a, b).value;
    forall i | 0 <= i < |results| ensures results[i].passed {
      assert PartitionCheck(lib, entity, a, b, entity.partitions[i]) == Some(results[i]);
    }
  }

  // The aggregated columns hold plain values, and sums fit the decimal context.
  ghost predicate Aggregable(lib: Library, entity: EntityRule, a: seq<Row>, b: seq<Row>, unit: AggregateRule -> int)
    requires WellFormed(entity)
  {
    forall g :: g in entity.aggregates ==>
      var column := Find(entity.columns, g.column).value;
      var groupBy := Resolve(entity.columns, g.groupBy);
      && PlainColumn(a, column) && PlainColumn(b, column)
      && (groupBy.Some? ==> Summable(lib, a, g.operation, column, groupBy.value, unit(g)))
  }

  lemma AggregatesPass(lib: Library, entity: EntityRule, a: seq<Row>, b: seq<Row>, columns: seq<ColumnRule>,
                       keys: seq<ColumnRule>, unit: AggregateRule -> int)
    requires WellFormed(entity) && Mentions(entity, columns) && Agreeing(lib, a, b, columns, keys)
    requires Aggregable(lib, entity, a, b, unit)
    ensures AggregateResults(lib, entity, a, b).Some? && AllPassed(AggregateResults(lib, entity, a, b).value)
  {
    forall g | g in entity.aggregates
      ensures AggregateCheck(lib, entity, a, b, g).Some? && AggregateCheck(lib, entity, a, b, g).value.passed
    {
      ResolvesWithin(entity.columns, g.groupBy, columns);
      AgreeingAggregates(lib, a, b, columns, keys, g.operation, Find(entity.columns, g.column).value,
                         Resolve(entity.columns, g.groupBy).value, unit(g));
    }
    var results := AggregateResults(lib, entity, a, b).value;
    forall i | 0 <= i < |results| ensures results[i].passed {
      assert AggregateCheck(lib, entity, a, b, entity.aggregates[i]) == Some(results[i]);
    }
  }

  lemma AllMentioned(entity: EntityRule)
    requires WellFormed(entity)
    ensures Mentions(entity, entity.columns)
  {
  }

  /** Redundancy: when every checksum of an entity passes, its row count, every partition
      count and every aggregate are computed and pass too. */
  lemma ChecksumsSubsumeTheRest(lib: Library, entity: EntityRule, a: seq<Row>, b: seq<Row>, keys: seq<ColumnRule>,
                            unit: AggregateRule -> int)
    requires Framing.Faithful(lib) && WellFormed(entity) && Aggregable(lib, entity, a, b, unit)
    requires ChecksumsPass(lib, a, b, entity.columns, keys)
    ensures CountCheck(entity, a, b).passed
    ensures PartitionResults(lib, entity, a, b).Some? && AllPassed(PartitionResults(lib, entity, a, b).value)
    ensures AggregateResults(lib, entity, a, b).Some? && AllPassed(AggregateResults(lib, entity, a, b).value)
  {
    PassingIsAlike(lib, a, b, entity.columns, keys);
    AlikeIsOneRelation(lib, a, b, entity.columns, keys);
    AllMentioned(entity);
    PartitionsPass(lib, entity, a, b, entity.columns, keys);
    AggregatesPass(lib, entity, a, b, entity.columns, keys, unit);
  }
}
