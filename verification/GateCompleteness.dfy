/** The other direction of the gate: over comparable rows every reconciled entity passes every
    check, in any order of rows, and a fault in one column fails one check. */
module GateCompleteness {
  import opened Models
  import Orders
  import opened Canonical
  import opened Framing
  import opened Reconciliation
  import Redundancy
  import opened Gate
  import opened GateTheorems

  // No two rows share a canonical key.
  ghost predicate Distinct(lib: Library, rows: seq<Row>, keys: seq<ColumnRule>) {
    WithKeys(lib, rows, keys).Some? && NoRepeats(KeyTexts(WithKeys(lib, rows, keys).value))
  }

  // One side's rows can be checked: canonical texts and checksums exist, keys are distinct,
  // aggregated columns are plain and their sums fit the decimal context.
  ghost predicate Checkable(lib: Library, entity: EntityRule, rows: seq<Row>, unit: AggregateRule -> int)
    requires WellFormed(entity)
  {
    && Readable(lib, rows, entity.columns) && Distinct(lib, rows, Keys(entity))
    && (forall c :: c in entity.columns ==> Checksum(lib, rows, c, Keys(entity)).Some?)
    && Aggregable(lib, entity, rows, rows, unit)
  }

  lemma KeysAreColumns(entity: EntityRule)
    requires WellFormed(entity)
    ensures Resolve(entity.columns, entity.keyColumns) == Some(Keys(entity))
    ensures forall c :: c in Keys(entity) ==> c in entity.columns && c.name in entity.keyColumns
  {
    Resolves(entity.columns, entity.keyColumns);
  }

  // ---- passing -------------------------------------------------------------------------------

  ghost predicate AllComputed(lib: Library, entity: EntityRule, a: seq<Row>, b: seq<Row>, keys: seq<ColumnRule>) {
    forall c :: c in entity.columns ==> Checksum(lib, a, c, keys).Some? && Checksum(lib, b, c, keys).Some?
  }

  // A checksum check passes exactly when the two checksums agree.
  lemma ChecksumVerdicts(lib: Library, entity: EntityRule, a: seq<Row>, b: seq<Row>, keys: seq<ColumnRule>)
    requires AllComputed(lib, entity, a, b, keys)
    ensures ChecksumResults(lib, entity, a, b, keys).Some?
    ensures var checks := ChecksumResults(lib, entity, a, b, keys).value;
            && |checks| == |entity.columns|
            && forall i :: 0 <= i < |checks| ==>
                 var c := entity.columns[i];
                 && checks[i].name == "checksum:" + c.name
                 && (checks[i].passed <==> Checksum(lib, a, c, keys) == Checksum(lib, b, c, keys))
  {
  }

  lemma AgreeingChecksums(lib: Library, a: seq<Row>, b: seq<Row>, columns: seq<ColumnRule>, keys: seq<ColumnRule>,
                          c: ColumnRule)
    requires Redundancy.Agreeing(lib, a, b, columns, keys) && c in columns
    ensures Checksum(lib, a, c, keys) == Checksum(lib, b, c, keys)
  {
    AlikeEveryColumn(lib, SortedRows(lib, a, keys).value, SortedRows(lib, b, keys).value, columns, c);
    AlikeChecksums(lib, a, b, c, keys);
  }

  lemma AgreeingSizes(lib: Library, a: seq<Row>, b: seq<Row>, columns: seq<ColumnRule>, keys: seq<ColumnRule>)
    requires Redundancy.Agreeing(lib, a, b, columns, keys)
    ensures |a| == |b|
  {
    SortedRowsAre(lib, a, keys);
    SortedRowsAre(lib, b, keys);
  }

  lemma ChecksumsAllPass(lib: Library, entity: EntityRule, a: seq<Row>, b: seq<Row>, keys: seq<ColumnRule>)
    requires Redundancy.Agreeing(lib, a, b, entity.columns, keys)
    requires forall c :: c in entity.columns ==> Checksum(lib, a, c, keys).Some?
    ensures ChecksumResults(lib, entity, a, b, keys).Some? && AllPassed(ChecksumResults(lib, entity, a, b, keys).value)
  {
    forall c | c in entity.columns ensures Checksum(lib, a, c, keys) == Checksum(lib, b, c, keys) {
      AgreeingChecksums(lib, a, b, entity.columns, keys, c);
    }
    ChecksumVerdicts(lib, entity, a, b, keys);
  }

  lemma PartsRun(lib: Library, entity: EntityRule, a: seq<Row>, b: seq<Row>, deleted: seq<Row>, keys: seq<ColumnRule>)
    requires Resolve(entity.columns, entity.keyColumns) == Some(keys)
    requires PartitionResults(lib, entity, a, b).Some? && ChecksumResults(lib, entity, a, b, keys).Some?
    requires AggregateResults(lib, entity, a, b).Some?
    requires entity.readsDeletes ==> DeleteCheck(lib, entity, b, deleted, keys).Some?
    ensures EntityChecks(lib, entity, a, b, deleted).Some?
  {
  }

  // Rows that agree in every column pass every check.
  lemma AgreeingPasses(lib: Library, entity: EntityRule, a: seq<Row>, b: seq<Row>, deleted: seq<Row>,
                       unit: AggregateRule -> int)
    requires WellFormed(entity) && Redundancy.Agreeing(lib, a, b, entity.columns, Keys(entity))
          && Aggregable(lib, entity, a, b, unit)
    requires forall c :: c in entity.columns ==> Checksum(lib, a, c, Keys(entity)).Some?
    requires entity.allowEmpty || a != []
    requires entity.readsDeletes ==> NoneSurvives(lib, b, deleted, Keys(entity))
    ensures EntityChecks(lib, entity, a, b, deleted).Some? && AllPassed(EntityChecks(lib, entity, a, b, deleted).value)
  {
    var keys := Keys(entity);
    KeysAreColumns(entity);
    ChecksumsAllPass(lib, entity, a, b, keys);
    AllMentioned(entity);
    PartitionsPass(lib, entity, a, b, entity.columns, keys);
    AggregatesPass(lib, entity, a, b, entity.columns, keys, unit);
    DeleteCheckDecides(lib, entity, b, deleted, keys);
    AgreeingSizes(lib, a, b, entity.columns, keys);
    PartsRun(lib, entity, a, b, deleted, keys);
    EntityPasses(lib, entity, a, b, deleted);
  }

  /** Order of rows plays no part: any permutation of a checkable, non-empty source, read
      back as the candidate, passes every check. */
  lemma PermutationPasses(lib: Library, entity: EntityRule, a: seq<Row>, b: seq<Row>, deleted: seq<Row>,
                          unit: AggregateRule -> int)
    requires WellFormed(entity) && Checkable(lib, entity, a, unit) && multiset(a) == multiset(b)
    requires entity.allowEmpty || a != []
    requires entity.readsDeletes ==> NoneSurvives(lib, b, deleted, Keys(entity))
    ensures EntityChecks(lib, entity, a, b, deleted).Some? && AllPassed(EntityChecks(lib, entity, a, b, deleted).value)
  {
    var keys := Keys(entity);
    KeysAreColumns(entity);
    PermutedRelation(lib, a, b, entity.columns);
    PermutedKeys(lib, a, b, keys);
    OneRelationIsAlike(lib, a, b, entity.columns, keys);
    PermutedPlain(lib, entity, a, b, unit);
    AgreeingPasses(lib, entity, a, b, deleted, unit);
  }

  lemma PermutedRelation(lib: Library, a: seq<Row>, b: seq<Row>, columns: seq<ColumnRule>)
    requires multiset(a) == multiset(b)
    ensures Relation(lib, a, columns) == Relation(lib, b, columns)
    ensures forall r :: r in b ==> r in a
  {
    var canon := (r: Row) => Canon(lib, r, columns);
    ImagesPermute(a, b, canon);
    assert Images(a, canon) == seq(|a|, i requires 0 <= i < |a| => Canon(lib, a[i], columns));
    assert Images(b, canon) == seq(|b|, i requires 0 <= i < |b| => Canon(lib, b[i], columns));
    forall r | r in b ensures r in a { assert r in multiset(b); }
  }

  lemma PermutedPlain(lib: Library, entity: EntityRule, a: seq<Row>, b: seq<Row>, unit: AggregateRule -> int)
    requires WellFormed(entity) && Aggregable(lib, entity, a, a, unit) && forall r :: r in b ==> r in a
    ensures Aggregable(lib, entity, a, b, unit)
  {
  }

  lemma PermutedKeys(lib: Library, a: seq<Row>, b: seq<Row>, keys: seq<ColumnRule>)
    requires multiset(a) == multiset(b) && (forall r :: r in b ==> r in a) && Distinct(lib, a, keys)
    ensures Distinct(lib, b, keys)
  {
    var canon := (r: Row) => Canon(lib, r, keys);
    ImagesPermute(a, b, canon);
    assert KeyTexts(WithKeys(lib, a, keys).value) == Images(a, canon);
    forall r | r in b ensures Cells(lib, r, keys).Some? {
      var i :| 0 <= i < |a| && a[i] == r;
    }
    assert KeyTexts(WithKeys(lib, b, keys).value) == Images(b, canon);
    NoRepeatsPermute(Images(a, canon), Images(b, canon));
  }

  // ---- deciding ------------------------------------------------------------------------------

  lemma CheckableAgrees(lib: Library, entity: EntityRule, rows: seq<Row>, unit: AggregateRule -> int)
    requires WellFormed(entity) && Checkable(lib, entity, rows, unit)
    ensures Redundancy.Agreeing(lib, rows, rows, entity.columns, Keys(entity))
  {
    KeysAreColumns(entity);
    OneRelationIsAlike(lib, rows, rows, entity.columns, Keys(entity));
  }

  // Over checkable sides every check can be computed, whatever its verdict.
  lemma ChecksRun(lib: Library, entity: EntityRule, a: seq<Row>, b: seq<Row>, deleted: seq<Row>,
                  unit: AggregateRule -> int)
    requires WellFormed(entity) && Checkable(lib, entity, a, unit) && Checkable(lib, entity, b, unit)
    requires entity.readsDeletes ==> KeyTuplesOf(lib, deleted, Keys(entity)).Some?
    ensures EntityChecks(lib, entity, a, b, deleted).Some?
    ensures AllComputed(lib, entity, a, b, Keys(entity))
  {
    KeysAreColumns(entity);
    SideRuns(lib, entity, a, unit);
    SideRuns(lib, entity, b, unit);
    ChecksumVerdicts(lib, entity, a, b, Keys(entity));
    PartitionsMix(lib, entity, a, b);
    AggregatesMix(lib, entity, a, b);
    PartsRun(lib, entity, a, b, deleted, Keys(entity));
  }

  lemma SideRuns(lib: Library, entity: EntityRule, rows: seq<Row>, unit: AggregateRule -> int)
    requires WellFormed(entity) && Checkable(lib, entity, rows, unit)
    ensures PartitionResults(lib, entity, rows, rows).Some? && AggregateResults(lib, entity, rows, rows).Some?
    ensures KeyTuplesOf(lib, rows, Keys(entity)).Some?
  {
    CheckableAgrees(lib, entity, rows, unit);
    AllMentioned(entity);
    PartitionsPass(lib, entity, rows, rows, entity.columns, Keys(entity));
    AggregatesPass(lib, entity, rows, rows, entity.columns, Keys(entity), unit);
  }

  lemma PartitionsMix(lib: Library, entity: EntityRule, a: seq<Row>, b: seq<Row>)
    requires PartitionResults(lib, entity, a, a).Some? && PartitionResults(lib, entity, b, b).Some?
    ensures PartitionResults(lib, entity, a, b).Some?
  {
  }

  lemma AggregatesMix(lib: Library, entity: EntityRule, a: seq<Row>, b: seq<Row>)
    requires AggregateResults(lib, entity, a, a).Some? && AggregateResults(lib, entity, b, b).Some?
    ensures AggregateResults(lib, entity, a, b).Some?
  {
  }

  lemma BothPlain(lib: Library, entity: EntityRule, a: seq<Row>, b: seq<Row>, unit: AggregateRule -> int)
    requires WellFormed(entity) && Aggregable(lib, entity, a, a, unit) && Aggregable(lib, entity, b, b, unit)
    ensures Aggregable(lib, entity, a, b, unit)
  {
  }

  /** Over checkable rows the checks of an entity all pass exactly when it is reconciled. */
  lemma EntityDecides(lib: Library, entity: EntityRule, a: seq<Row>, b: seq<Row>, deleted: seq<Row>,
                      unit: AggregateRule -> int)
    requires Faithful(lib) && WellFormed(entity)
    requires Checkable(lib, entity, a, unit) && Checkable(lib, entity, b, unit)
    requires entity.readsDeletes ==> KeyTuplesOf(lib, deleted, Keys(entity)).Some?
    ensures EntityChecks(lib, entity, a, b, deleted).Some?
    ensures AllPassed(EntityChecks(lib, entity, a, b, deleted).value) <==> Reconciled(lib, entity, a, b, deleted)
  {
    KeysAreColumns(entity);
    ChecksRun(lib, entity, a, b, deleted, unit);
    if AllPassed(EntityChecks(lib, entity, a, b, deleted).value) { EntityIsSound(lib, entity, a, b, deleted); }
    if Reconciled(lib, entity, a, b, deleted) {
      OneRelationIsAlike(lib, a, b, entity.columns, Keys(entity));
      BothPlain(lib, entity, a, b, unit);
      AgreeingPasses(lib, entity, a, b, deleted, unit);
    }
  }

  // Both readers and the tombstone reader answer, with checkable rows.
  ghost predicate CheckableEntity(lib: Library, entity: EntityRule, readers: Readers, unit: AggregateRule -> int)
    requires WellFormed(entity)
  {
    var source, candidate, deleted := readers.source(entity.name), readers.candidate(entity.name),
        DeletedKeys(entity, readers);
    && source.Some? && candidate.Some? && deleted.Some?
    && Checkable(lib, entity, source.value, unit) && Checkable(lib, entity, candidate.value, unit)
    && (entity.readsDeletes ==> KeyTuplesOf(lib, deleted.value, Keys(entity)).Some?)
  }

  /** The gate decides reconciliation: over checkable rows a report is passed exactly when
      every configured entity is reconciled. */
  lemma GateDecides(lib: Library, ctx: Context, entities: seq<EntityRule>, readers: Readers, unit: AggregateRule -> int)
    requires Faithful(lib) && entities != []
    requires forall e :: e in entities ==> WellFormed(e) && CheckableEntity(lib, e, readers, unit)
    ensures Report(ctx, AllChecks(lib, entities, readers)).passed
       <==> forall e :: e in entities ==> EntityReconciled(lib, e, readers)
  {
    AllChecksCover(lib, entities, readers);
    forall e | e in entities
      ensures AllPassed(Guarded(lib, e, readers)) <==> EntityReconciled(lib, e, readers)
      ensures Guarded(lib, e, readers) != []
    {
      GuardedDecides(lib, e, readers, unit);
    }
    assert entities[0] in entities;
  }

  lemma GuardedDecides(lib: Library, e: EntityRule, readers: Readers, unit: AggregateRule -> int)
    requires Faithful(lib) && WellFormed(e) && CheckableEntity(lib, e, readers, unit)
    ensures AllPassed(Guarded(lib, e, readers)) <==> EntityReconciled(lib, e, readers)
    ensures Guarded(lib, e, readers) != []
  {
    AlwaysChecked(lib, e, readers);
    EntityDecides(lib, e, readers.source(e.name).value, readers.candidate(e.name).value, DeletedKeys(e, readers).value,
                  unit);
  }

  // ---- localising a fault ------------------------------------------------------------------------

  function FailingNames(checks: seq<CheckResult>): set<string> { set x | x in checks && !x.passed :: x.name }

  // The columns with another name.
  function Others(columns: seq<ColumnRule>, name: string): (r: seq<ColumnRule>)
    ensures forall d :: d in r <==> d in columns && d.name != name
  {
    if columns == [] then []
    else (if columns[0].name == name then [] else [columns[0]]) + Others(columns[1..], name)
  }

  // Neither a key nor mentioned by a partition or an aggregate.
  ghost predicate Unmentioned(entity: EntityRule, name: string) {
    && name !in entity.keyColumns
    && (forall p :: p in entity.partitions ==> name !in p.columns)
    && (forall g :: g in entity.aggregates ==> g.column != name && name !in g.groupBy)
  }

  lemma UnmentionedElsewhere(entity: EntityRule, name: string)
    requires WellFormed(entity) && Unmentioned(entity, name)
    ensures Mentions(entity, Others(entity.columns, name))
    ensures forall k :: k in Keys(entity) ==> k in Others(entity.columns, name)
    ensures Others(entity.columns, name) != []
  {
    KeysAreColumns(entity);
    assert Keys(entity)[0] in Keys(entity);
  }

  lemma OnlyColumn(entity: EntityRule, c: ColumnRule, d: ColumnRule)
    requires WellFormed(entity) && c in entity.columns && d in entity.columns && c.name == d.name
    ensures c == d
  {
  }

  lemma ReadableOthers(lib: Library, rows: seq<Row>, columns: seq<ColumnRule>, others: seq<ColumnRule>)
    requires Readable(lib, rows, columns) && forall d :: d in others ==> d in columns
    ensures Readable(lib, rows, others)
  {
    forall r | r in rows ensures Cells(lib, r, others).Some? { KeysFromCells(lib, r, r, columns, others); }
  }

  // Source and candidate differ in this column and in no other.
  ghost predicate DifferOnlyIn(lib: Library, a: seq<Row>, b: seq<Row>, columns: seq<ColumnRule>, name: string) {
    && Relation(lib, a, Others(columns, name)) == Relation(lib, b, Others(columns, name))
    && Relation(lib, a, columns) != Relation(lib, b, columns)
  }

  // A checksum per column: all agree but the named one's.
  ghost predicate OnlyChecksumDiffers(lib: Library, a: seq<Row>, b: seq<Row>, columns: seq<ColumnRule>,
                            keys: seq<ColumnRule>, name: string) {
    forall d :: d in columns ==> (Checksum(lib, a, d, keys) == Checksum(lib, b, d, keys) <==> d.name != name)
  }

  lemma FaultInChecksums(lib: Library, entity: EntityRule, a: seq<Row>, b: seq<Row>, unit: AggregateRule -> int,
                         c: ColumnRule)
    requires Faithful(lib) && WellFormed(entity) && c in entity.columns && Unmentioned(entity, c.name)
    requires Checkable(lib, entity, a, unit) && Checkable(lib, entity, b, unit)
    ensures DifferOnlyIn(lib, a, b, entity.columns, c.name)
       <==> OnlyChecksumDiffers(lib, a, b, entity.columns, Keys(entity), c.name)
    ensures DifferOnlyIn(lib, a, b, entity.columns, c.name) ==>
              Redundancy.Agreeing(lib, a, b, Others(entity.columns, c.name), Keys(entity))
  {
    var keys, others := Keys(entity), Others(entity.columns, c.name);
    KeysAreColumns(entity);
    UnmentionedElsewhere(entity, c.name);
    ReadableOthers(lib, a, entity.columns, others);
    ReadableOthers(lib, b, entity.columns, others);
    ChecksumsDecideTheRelation(lib, a, b, others, keys);
    ChecksumsDecideTheRelation(lib, a, b, entity.columns, keys);
    OneChecksumDiffers(lib, entity, a, b, keys, c);
    if Relation(lib, a, others) == Relation(lib, b, others) { OneRelationIsAlike(lib, a, b, others, keys); }
  }

  // Checksums that pass for the other columns and not for all of them.
  lemma OneChecksumDiffers(lib: Library, entity: EntityRule, a: seq<Row>, b: seq<Row>, keys: seq<ColumnRule>,
                           c: ColumnRule)
    requires WellFormed(entity) && c in entity.columns
    requires forall d :: d in entity.columns ==> Checksum(lib, a, d, keys).Some?
    ensures OnlyChecksumDiffers(lib, a, b, entity.columns, keys, c.name)
       <==> && ChecksumsPass(lib, a, b, Others(entity.columns, c.name), keys)
            && !ChecksumsPass(lib, a, b, entity.columns, keys)
  {
    forall d | d in entity.columns ensures d.name == c.name ==> d == c {
      if d.name == c.name { OnlyColumn(entity, c, d); }
    }
  }

  /** A fault is localised: when the rows are otherwise in order, candidate and source
      differ in column `c` only, which no key, partition or aggregate mentions, exactly when
      the checks that fail are `checksum:c` and nothing else. */
  lemma FaultIsLocalised(lib: Library, entity: EntityRule, a: seq<Row>, b: seq<Row>, deleted: seq<Row>,
                         unit: AggregateRule -> int, c: ColumnRule)
    requires Faithful(lib) && WellFormed(entity) && c in entity.columns && Unmentioned(entity, c.name)
    requires Checkable(lib, entity, a, unit) && Checkable(lib, entity, b, unit)
    requires entity.allowEmpty || a != []
    requires entity.readsDeletes ==> NoneSurvives(lib, b, deleted, Keys(entity))
    ensures EntityChecks(lib, entity, a, b, deleted).Some?
    ensures DifferOnlyIn(lib, a, b, entity.columns, c.name)
       <==> FailingNames(EntityChecks(lib, entity, a, b, deleted).value) == {"checksum:" + c.name}
  {
    if entity.readsDeletes { DeleteCheckDecides(lib, entity, b, deleted, Keys(entity)); }
    ChecksRun(lib, entity, a, b, deleted, unit);
    FaultInChecksums(lib, entity, a, b, unit, c);
    ChecksumFailures(lib, entity, a, b, Keys(entity), c);
    EntityFailures(lib, entity, a, b, deleted, c);
    if DifferOnlyIn(lib, a, b, entity.columns, c.name) { RestPasses(lib, entity, a, b, deleted, unit, c); }
  }

  lemma PassingNames(x: seq<CheckResult>)
    ensures AllPassed(x) <==> FailingNames(x) == {}
  {
    if !AllPassed(x) {
      var c :| c in x && !c.passed;
      assert c.name in FailingNames(x);
    }
  }

  // The failing checks of an entity that are not checksum checks.
  function OtherFailures(presence: CheckResult, count: CheckResult, partitions: seq<CheckResult>,
                         deletes: seq<CheckResult>,
                         aggregates: seq<CheckResult>): set<string> {
    FailingNames([presence, count]) + FailingNames(partitions) + FailingNames(deletes) + FailingNames(aggregates)
  }

  lemma InOrderFailures(presence: CheckResult, count: CheckResult, partitions: seq<CheckResult>,
                        deletes: seq<CheckResult>,
                        checksums: seq<CheckResult>, aggregates: seq<CheckResult>)
    ensures FailingNames(InOrder(presence, count, partitions, deletes, checksums, aggregates))
         == OtherFailures(presence, count, partitions, deletes, aggregates) + FailingNames(checksums)
  {
  }

  predicate NamedLikeChecksum(name: string) { name != "" && name[0] == 'c' }

  lemma PartitionNames(lib: Library, entity: EntityRule, a: seq<Row>, b: seq<Row>)
    requires PartitionResults(lib, entity, a, b).Some?
    ensures forall x :: x in PartitionResults(lib, entity, a, b).value ==> !NamedLikeChecksum(x.name)
  {
  }

  lemma AggregateNames(lib: Library, entity: EntityRule, a: seq<Row>, b: seq<Row>)
    requires AggregateResults(lib, entity, a, b).Some?
    ensures forall x :: x in AggregateResults(lib, entity, a, b).value ==> !NamedLikeChecksum(x.name)
  {
  }

  // One checksum check fails exactly when one checksum differs.
  lemma ChecksumFailures(lib: Library, entity: EntityRule, a: seq<Row>, b: seq<Row>, keys: seq<ColumnRule>,
                         c: ColumnRule)
    requires WellFormed(entity) && c in entity.columns && AllComputed(lib, entity, a, b, keys)
    ensures ChecksumResults(lib, entity, a, b, keys).Some?
    ensures FailingNames(ChecksumResults(lib, entity, a, b, keys).value) == {"checksum:" + c.name}
       <==> OnlyChecksumDiffers(lib, a, b, entity.columns, keys, c.name)
  {
    ChecksumVerdicts(lib, entity, a, b, keys);
    var sums := ChecksumResults(lib, entity, a, b, keys).value;
    if FailingNames(sums) == {"checksum:" + c.name} {
      forall d | d in entity.columns
        ensures Checksum(lib, a, d, keys) == Checksum(lib, b, d, keys) <==> d.name != c.name
      {
        FailsAlone(lib, entity, a, b, keys, c, d);
      }
    }
    if OnlyChecksumDiffers(lib, a, b, entity.columns, keys, c.name) { OnlyOneFails(lib, entity, a, b, keys, c, sums); }
  }

  lemma OnlyOneFails(lib: Library, entity: EntityRule, a: seq<Row>, b: seq<Row>, keys: seq<ColumnRule>,
                     c: ColumnRule, sums: seq<CheckResult>)
    requires c in entity.columns && OnlyChecksumDiffers(lib, a, b, entity.columns, keys, c.name)
          && |sums| == |entity.columns|
    requires forall i :: 0 <= i < |sums| ==>
               && sums[i].name == "checksum:" + entity.columns[i].name
               && (sums[i].passed
                   <==> Checksum(lib, a, entity.columns[i], keys) == Checksum(lib, b, entity.columns[i], keys))
    ensures FailingNames(sums) == {"checksum:" + c.name}
  {
  }

  lemma FailsAlone(lib: Library, entity: EntityRule, a: seq<Row>, b: seq<Row>, keys: seq<ColumnRule>, c: ColumnRule,
                   d: ColumnRule)
    requires WellFormed(entity) && c in entity.columns && d in entity.columns && AllComputed(lib, entity, a, b, keys)
    requires ChecksumResults(lib, entity, a, b, keys).Some?
    requires FailingNames(ChecksumResults(lib, entity, a, b, keys).value) == {"checksum:" + c.name}
    ensures Checksum(lib, a, d, keys) == Checksum(lib, b, d, keys) <==> d.name != c.name
  {
    ChecksumVerdicts(lib, entity, a, b, keys);
    var sums := ChecksumResults(lib, entity, a, b, keys).value;
    var i :| 0 <= i < |entity.columns| && entity.columns[i] == d;
    var j := NamedFailure(sums, "checksum:" + c.name);
    var failing := entity.columns[j];
    SameTail("checksum:", failing.name, c.name);
    SameTail("checksum:", d.name, c.name);
    OnlyColumn(entity, failing, c);
    if d.name == c.name { OnlyColumn(entity, c, d); } else { OtherwisePasses(sums, i, "checksum:" + c.name); }
  }

  lemma NamedFailure(checks: seq<CheckResult>, name: string) returns (j: nat)
    requires FailingNames(checks) == {name}
    ensures j < |checks| && !checks[j].passed && checks[j].name == name
  {
    assert name in FailingNames(checks);
    var x :| x in checks && !x.passed && x.name == name;
    j :| 0 <= j < |checks| && checks[j] == x;
  }

  lemma OtherwisePasses(checks: seq<CheckResult>, i: nat, name: string)
    requires FailingNames(checks) == {name} && i < |checks| && checks[i].name != name
    ensures checks[i].passed
  {
    assert forall x :: x in checks && !x.passed ==> x.name in FailingNames(checks);
    assert checks[i] in checks;
  }

  lemma Separate(others: set<string>, sums: set<string>, name: string)
    requires NamedLikeChecksum(name) && forall n :: n in others ==> !NamedLikeChecksum(n)
    ensures others + sums == {name} <==> others == {} && sums == {name}
  {
  }

  // The failing checks of an entity: those that are not checksums, and the checksums.
  lemma EntityFailures(lib: Library, entity: EntityRule, a: seq<Row>, b: seq<Row>, deleted: seq<Row>, c: ColumnRule)
    requires WellFormed(entity) && EntityChecks(lib, entity, a, b, deleted).Some?
    ensures var keys := Keys(entity);
            FailingNames(EntityChecks(lib, entity, a, b, deleted).value) == {"checksum:" + c.name}
            <==> && PresenceCheck(entity, a, b).passed && CountCheck(entity, a, b).passed
                 && AllPassed(PartitionResults(lib, entity, a, b).value)
                 && (entity.readsDeletes ==> DeleteCheck(lib, entity, b, deleted, keys).value.passed)
                 && AllPassed(AggregateResults(lib, entity, a, b).value)
                 && FailingNames(ChecksumResults(lib, entity, a, b, keys).value) == {"checksum:" + c.name}
  {
    KeysAreColumns(entity);
    var keys := Keys(entity);
    PartitionNames(lib, entity, a, b);
    AggregateNames(lib, entity, a, b);
    FailuresApart(PresenceCheck(entity, a, b), CountCheck(entity, a, b), PartitionResults(lib, entity, a, b).value,
                  if entity.readsDeletes then [DeleteCheck(lib, entity, b, deleted, keys).value] else [],
                  ChecksumResults(lib, entity, a, b, keys).value, AggregateResults(lib, entity, a, b).value, c.name);
  }

  lemma FailuresApart(presence: CheckResult, count: CheckResult, partitions: seq<CheckResult>,
                      deletes: seq<CheckResult>,
                      checksums: seq<CheckResult>, aggregates: seq<CheckResult>, column: string)
    requires !NamedLikeChecksum(presence.name) && !NamedLikeChecksum(count.name)
    requires forall x :: x in partitions || x in deletes || x in aggregates ==> !NamedLikeChecksum(x.name)
    ensures FailingNames(InOrder(presence, count, partitions, deletes, checksums, aggregates)) == {"checksum:" + column}
       <==> && presence.passed && count.passed && AllPassed(partitions) && AllPassed(deletes) && AllPassed(aggregates)
            && FailingNames(checksums) == {"checksum:" + column}
  {
    InOrderFailures(presence, count, partitions, deletes, checksums, aggregates);
    assert ("checksum:" + column)[0] == 'c';
    Separate(OtherFailures(presence, count, partitions, deletes, aggregates), FailingNames(checksums),
             "checksum:" + column);
    NothingElse(presence, count, partitions, deletes, aggregates);
  }

  lemma NothingElse(presence: CheckResult, count: CheckResult, partitions: seq<CheckResult>, deletes: seq<CheckResult>,
                    aggregates: seq<CheckResult>)
    ensures OtherFailures(presence, count, partitions, deletes, aggregates) == {}
       <==> presence.passed && count.passed && AllPassed(partitions) && AllPassed(deletes) && AllPassed(aggregates)
  {
    PassingNames([presence, count]);
    PassingNames(partitions);
    PassingNames(deletes);
    PassingNames(aggregates);
  }

  // The rest of the checks pass when the rows agree outside column `c`.
  lemma RestPasses(lib: Library, entity: EntityRule, a: seq<Row>, b: seq<Row>, deleted: seq<Row>,
                   unit: AggregateRule -> int, c: ColumnRule)
    requires WellFormed(entity) && c in entity.columns && Unmentioned(entity, c.name)
    requires Redundancy.Agreeing(lib, a, b, Others(entity.columns, c.name), Keys(entity))
    requires Aggregable(lib, entity, a, a, unit) && Aggregable(lib, entity, b, b, unit)
    requires entity.allowEmpty || a != []
    ensures PresenceCheck(entity, a, b).passed && CountCheck(entity, a, b).passed
    ensures PartitionResults(lib, entity, a, b).Some? && AllPassed(PartitionResults(lib, entity, a, b).value)
    ensures AggregateResults(lib, entity, a, b).Some? && AllPassed(AggregateResults(lib, entity, a, b).value)
  {
    var keys, others := Keys(entity), Others(entity.columns, c.name);
    UnmentionedElsewhere(entity, c.name);
    PartitionsPass(lib, entity, a, b, others, keys);
    BothPlain(lib, entity, a, b, unit);
    AggregatesPass(lib, entity, a, b, others, keys, unit);
    AgreeingSizes(lib, a, b, others, keys);
  }

  // ---- repeated keys ------------------------------------------------------------------------------

  /** Distinct keys are needed: two rows with one canonical key and different cells are one
      relation in either order, yet their checksums differ. */
  lemma RepeatedKeysReadInOrder(lib: Library, r: Row, q: Row, c: ColumnRule, keys: seq<ColumnRule>)
    requires Faithful(lib) && Cells(lib, r, keys).Some? && Cells(lib, r, keys) == Cells(lib, q, keys)
    requires Cell(lib, r, c) != Cell(lib, q, c)
    requires Checksum(lib, [r, q], c, keys).Some?
    ensures Relation(lib, [r, q], keys + [c]) == Relation(lib, [q, r], keys + [c])
    ensures Checksum(lib, [r, q], c, keys) != Checksum(lib, [q, r], c, keys)
  {
    assert multiset([r, q]) == multiset([q, r]);
    PermutedRelation(lib, [r, q], [q, r], keys + [c]);
    EqualKeysStay(lib, r, q, keys);
    EqualKeysStay(lib, q, r, keys);
    if Checksum(lib, [r, q], c, keys) == Checksum(lib, [q, r], c, keys) {
      ChecksumDecides(lib, [r, q], [q, r], c, keys);
    }
  }

  lemma EqualKeysStay(lib: Library, r: Row, q: Row, keys: seq<ColumnRule>)
    requires Cells(lib, r, keys).Some? && Cells(lib, r, keys) == Cells(lib, q, keys)
    ensures var k := Cells(lib, r, keys).value;
            SortedRows(lib, [r, q], keys) == Some([KeyedRow(k, r), KeyedRow(k, q)])
  {
    var k := Cells(lib, r, keys).value;
    Orders.TupleTotal();
    var with, keyed := WithKeys(lib, [r, q], keys), [KeyedRow(k, r), KeyedRow(k, q)];
    assert [r, q][0] == r && [r, q][1] == q;
    assert with.value[0] == keyed[0] && with.value[1] == keyed[1];
    assert with.value == keyed;
    assert keyed[..1] == [keyed[0]] && [keyed[0]][..0] == [];
    assert Sorted([keyed[0]]) == [keyed[0]];
  }
}
