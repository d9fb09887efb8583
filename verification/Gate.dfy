/** The reconciliation gate (src/millrace/validation/service.py): the checks of one entity,
    and the fail-closed report over all entities. Every None stands for a raised exception. */
module Gate {
  import opened Models
  import opened Canonical

  datatype EntityRule = EntityRule(
    name: string, keyColumns: seq<string>, columns: seq<ColumnRule>,
    partitions: seq<PartitionRule>, aggregates: seq<AggregateRule>,
    allowEmpty: bool, readsDeletes: bool)

  // What the readers return for an entity at the run's batch; None if they raise.
  datatype Readers = Readers(
    source: string -> Option<seq<Row>>,
    candidate: string -> Option<seq<Row>>,
    tombstones: Option<string -> Option<seq<Row>>>)

  // columns[name]
  function Find(columns: seq<ColumnRule>, name: string): (r: Option<ColumnRule>)
    ensures r.Some? ==> r.value in columns && r.value.name == name
  {
    if columns == [] then None
    else if columns[0].name == name then Some(columns[0])
    else Find(columns[1..], name)
  }

  function Resolve(columns: seq<ColumnRule>, names: seq<string>): (r: Option<seq<ColumnRule>>)
    ensures r.Some? ==> |r.value| == |names| && forall c :: c in r.value ==> c in columns
    ensures (forall n :: n in names ==> Find(columns, n).Some?) ==> r.Some?
  {
    if names == [] then Some([])
    else
      var first, rest := Find(columns, names[0]), Resolve(columns, names[1..]);
      if first.None? || rest.None? then None else Some([first.value] + rest.value)
  }

  // _result
  function Compared(entity: string, name: string, kind: CheckKind, expected: CheckValue,
                    actual: CheckValue): CheckResult {
    CheckResult(entity, name, kind, expected == actual, expected, actual)
  }

  function PresenceCheck(entity: EntityRule, source: seq<Row>, candidate: seq<Row>): CheckResult {
    CheckResult(entity.name, "non_empty", PresenceKind,
                entity.allowEmpty || (source != [] && candidate != []),
                Note(if entity.allowEmpty then "empty allowed" else "rows present"),
                PairValue(|source|, |candidate|))
  }

  function CountCheck(entity: EntityRule, source: seq<Row>, candidate: seq<Row>): CheckResult {
    Compared(entity.name, "row_count", CountKind, CountValue(|source|), CountValue(|candidate|))
  }

  function PartitionCheck(lib: Library, entity: EntityRule, source: seq<Row>, candidate: seq<Row>,
                          rule: PartitionRule): Option<CheckResult> {
    match Resolve(entity.columns, rule.columns)
    case None => None
    case Some(columns) =>
      var expected, actual := CountsOf(lib, source, columns), CountsOf(lib, candidate, columns);
      if expected.None? || actual.None? then None
      else Some(Compared(entity.name, "partition_count:" + rule.name, PartitionCountKind,
                         GroupCounts(expected.value), GroupCounts(actual.value)))
  }

  // _key_tuple of every row
  function KeyTuplesOf(lib: Library, rows: seq<Row>, keys: seq<ColumnRule>): Option<set<seq<string>>> {
    match WithKeys(lib, rows, keys)
    case None => None
    case Some(keyed) => Some(set k | k in keyed :: k.key)
  }

  function DeleteCheck(lib: Library, entity: EntityRule, candidate: seq<Row>, deleted: seq<Row>,
                       keys: seq<ColumnRule>): Option<CheckResult> {
    var gone, present := KeyTuplesOf(lib, deleted, keys), KeyTuplesOf(lib, candidate, keys);
    if gone.None? || present.None? then None
    else
      var still := gone.value * present.value;
      Some(CheckResult(entity.name, "deleted_absent", DeleteKind, still == {}, KeyTuples({}), KeyTuples(still)))
  }

  function ChecksumCheck(lib: Library, entity: EntityRule, source: seq<Row>, candidate: seq<Row>,
                         keys: seq<ColumnRule>, column: ColumnRule): Option<CheckResult> {
    var expected, actual := Checksum(lib, source, column, keys), Checksum(lib, candidate, column, keys);
    if expected.None? || actual.None? then None
    else Some(Compared(entity.name, "checksum:" + column.name, ChecksumKind,
                       DigestValue(expected.value), DigestValue(actual.value)))
  }

  function AggregateCheck(lib: Library, entity: EntityRule, source: seq<Row>, candidate: seq<Row>,
                          rule: AggregateRule): Option<CheckResult> {
    var column, groupBy := Find(entity.columns, rule.column), Resolve(entity.columns, rule.groupBy);
    if column.None? || groupBy.None? then None
    else
      var expected := Aggregates(lib, source, rule.operation, column.value, groupBy.value);
      var actual := Aggregates(lib, candidate, rule.operation, column.value, groupBy.value);
      if expected.None? || actual.None? then None
      else Some(Compared(entity.name, "aggregate:" + rule.name, AggregateKind,
                         GroupTexts(expected.value), GroupTexts(actual.value)))
  }

  // Running a check per item, in order; one exception loses them all.
  function Collect<T>(items: seq<T>, check: T -> Option<CheckResult>): (r: Option<seq<CheckResult>>)
    ensures r.Some? ==> |r.value| == |items| && forall i :: 0 <= i < |items| ==> check(items[i]) == Some(r.value[i])
    ensures r.None? ==> exists i :: 0 <= i < |items| && check(items[i]).None?
  {
    if items == [] then Some([])
    else
      var front, last := Collect(items[..|items| - 1], check), check(items[|items| - 1]);
      if front.None? || last.None? then None else Some(front.value + [last.value])
  }

  function PartitionRun(lib: Library, entity: EntityRule, source: seq<Row>,
                        candidate: seq<Row>): PartitionRule -> Option<CheckResult> {
    r => PartitionCheck(lib, entity, source, candidate, r)
  }

  function ChecksumRun(lib: Library, entity: EntityRule, source: seq<Row>, candidate: seq<Row>,
                       keys: seq<ColumnRule>): ColumnRule -> Option<CheckResult> {
    c => ChecksumCheck(lib, entity, source, candidate, keys, c)
  }

  function AggregateRun(lib: Library, entity: EntityRule, source: seq<Row>,
                        candidate: seq<Row>): AggregateRule -> Option<CheckResult> {
    r => AggregateCheck(lib, entity, source, candidate, r)
  }

  function PartitionResults(lib: Library, entity: EntityRule, source: seq<Row>,
                            candidate: seq<Row>): Option<seq<CheckResult>> {
    Collect(entity.partitions, PartitionRun(lib, entity, source, candidate))
  }

  function ChecksumResults(lib: Library, entity: EntityRule, source: seq<Row>, candidate: seq<Row>,
                           keys: seq<ColumnRule>): Option<seq<CheckResult>> {
    Collect(entity.columns, ChecksumRun(lib, entity, source, candidate, keys))
  }

  function AggregateResults(lib: Library, entity: EntityRule, source: seq<Row>,
                            candidate: seq<Row>): Option<seq<CheckResult>> {
    Collect(entity.aggregates, AggregateRun(lib, entity, source, candidate))
  }

  // The order in which _compare_entity appends its checks.
  function InOrder(presence: CheckResult, count: CheckResult, partitions: seq<CheckResult>, deletes: seq<CheckResult>,
                   checksums: seq<CheckResult>, aggregates: seq<CheckResult>): seq<CheckResult> {
    [presence, count] + partitions + deletes + checksums + aggregates
  }

  // _compare_entity
  function EntityChecks(lib: Library, entity: EntityRule, source: seq<Row>, candidate: seq<Row>,
                        deleted: seq<Row>): Option<seq<CheckResult>> {
    match Resolve(entity.columns, entity.keyColumns)
    case None => None
    case Some(keys) =>
      var partitions := PartitionResults(lib, entity, source, candidate);
      var deletes := DeleteCheck(lib, entity, candidate, deleted, keys);
      var checksums := ChecksumResults(lib, entity, source, candidate, keys);
      var aggregates := AggregateResults(lib, entity, source, candidate);
      if partitions.None? || (entity.readsDeletes && deletes.None?) || checksums.None? || aggregates.None? then None
      else Some(InOrder(PresenceCheck(entity, source, candidate), CountCheck(entity, source, candidate),
                        partitions.value, if entity.readsDeletes then [deletes.value] else [],
                        checksums.value, aggregates.value))
  }

  // _fetch_deleted_keys
  function DeletedKeys(entity: EntityRule, readers: Readers): Option<seq<Row>> {
    if !entity.readsDeletes then Some([])
    else if readers.tombstones.None? then None
    else readers.tombstones.value(entity.name)
  }

  function QueryFailure(entity: EntityRule): CheckResult {
    CheckResult(entity.name, "query", ErrorKind, false, NoValue, NoValue)
  }

  // The checks one entity adds to the report: an exception anywhere leaves one failing check.
  function Guarded(lib: Library, entity: EntityRule, readers: Readers): seq<CheckResult> {
    var source, candidate, deleted := readers.source(entity.name), readers.candidate(entity.name),
        DeletedKeys(entity, readers);
    if source.None? || candidate.None? || deleted.None? then [QueryFailure(entity)]
    else
      match EntityChecks(lib, entity, source.value, candidate.value, deleted.value)
      case None => [QueryFailure(entity)]
      case Some(checks) => checks
  }

  function AllChecks(lib: Library, entities: seq<EntityRule>, readers: Readers): seq<CheckResult> {
    if entities == [] then []
    else AllChecks(lib, entities[..|entities| - 1], readers) + Guarded(lib, entities[|entities| - 1], readers)
  }

  predicate AllPassed(checks: seq<CheckResult>) { forall c :: c in checks ==> c.passed }

  function Report(ctx: Context, checks: seq<CheckResult>): ValidationReport {
    ValidationReport(ctx.runId, ctx.batch, checks != [] && AllPassed(checks), checks)
  }

  // ---- the service as it runs ----------------------------------------------------------------

  method ComparePartition(lib: Library, entity: EntityRule, source: seq<Row>, candidate: seq<Row>, rule: PartitionRule)
    returns (check: Option<CheckResult>)
    ensures check == PartitionCheck(lib, entity, source, candidate, rule)
  {
    var columns := Resolve(entity.columns, rule.columns);
    if columns.None? { return None; }
    var expected := GroupedCounts(lib, source, columns.value);
    var actual := GroupedCounts(lib, candidate, columns.value);
    if expected.None? || actual.None? { return None; }
    check := Some(Compared(entity.name, "partition_count:" + rule.name, PartitionCountKind,
                           GroupCounts(expected.value), GroupCounts(actual.value)));
  }

  method PartitionChecks(lib: Library, entity: EntityRule, source: seq<Row>, candidate: seq<Row>)
    returns (checks: Option<seq<CheckResult>>)
    ensures checks == PartitionResults(lib, entity, source, candidate)
  {
    ghost var run := PartitionRun(lib, entity, source, candidate);
    var done: seq<CheckResult> := [];
    for i := 0 to |entity.partitions|
      invariant Collect(entity.partitions[..i], run) == Some(done)
    {
      var check := ComparePartition(lib, entity, source, candidate, entity.partitions[i]);
      if check.None? { CollectFails(entity.partitions, run, i); return None; }
      CollectStep(entity.partitions, run, i, done, check.value);
      done := done + [check.value];
    }
    assert entity.partitions[..|entity.partitions|] == entity.partitions;
    checks := Some(done);
  }

  method CompareColumn(lib: Library, entity: EntityRule, source: seq<Row>, candidate: seq<Row>,
                       keys: seq<ColumnRule>, column: ColumnRule)
    returns (check: Option<CheckResult>)
    ensures check == ChecksumCheck(lib, entity, source, candidate, keys, column)
  {
    var expected := ColumnChecksum(lib, source, column, keys);
    var actual := ColumnChecksum(lib, candidate, column, keys);
    if expected.None? || actual.None? { return None; }
    check := Some(Compared(entity.name, "checksum:" + column.name, ChecksumKind,
                           DigestValue(expected.value), DigestValue(actual.value)));
  }

  method ChecksumChecks(lib: Library, entity: EntityRule, source: seq<Row>, candidate: seq<Row>, keys: seq<ColumnRule>)
    returns (checks: Option<seq<CheckResult>>)
    ensures checks == ChecksumResults(lib, entity, source, candidate, keys)
  {
    ghost var run := ChecksumRun(lib, entity, source, candidate, keys);
    var done: seq<CheckResult> := [];
    for i := 0 to |entity.columns|
      invariant Collect(entity.columns[..i], run) == Some(done)
    {
      var check := CompareColumn(lib, entity, source, candidate, keys, entity.columns[i]);
      if check.None? { CollectFails(entity.columns, run, i); return None; }
      CollectStep(entity.columns, run, i, done, check.value);
      done := done + [check.value];
    }
    assert entity.columns[..|entity.columns|] == entity.columns;
    checks := Some(done);
  }

  method CompareAggregate(lib: Library, entity: EntityRule, source: seq<Row>, candidate: seq<Row>, rule: AggregateRule)
    returns (check: Option<CheckResult>)
    ensures check == AggregateCheck(lib, entity, source, candidate, rule)
  {
    var column, groupBy := Find(entity.columns, rule.column), Resolve(entity.columns, rule.groupBy);
    if column.None? || groupBy.None? { return None; }
    var expected := AggregateValues(lib, source, rule.operation, column.value, groupBy.value);
    var actual := AggregateValues(lib, candidate, rule.operation, column.value, groupBy.value);
    if expected.None? || actual.None? { return None; }
    check := Some(Compared(entity.name, "aggregate:" + rule.name, AggregateKind,
                           GroupTexts(expected.value), GroupTexts(actual.value)));
  }

  method AggregateChecks(lib: Library, entity: EntityRule, source: seq<Row>, candidate: seq<Row>)
    returns (checks: Option<seq<CheckResult>>)
    ensures checks == AggregateResults(lib, entity, source, candidate)
  {
    ghost var run := AggregateRun(lib, entity, source, candidate);
    var done: seq<CheckResult> := [];
    for i := 0 to |entity.aggregates|
      invariant Collect(entity.aggregates[..i], run) == Some(done)
    {
      var check := CompareAggregate(lib, entity, source, candidate, entity.aggregates[i]);
      if check.None? { CollectFails(entity.aggregates, run, i); return None; }
      CollectStep(entity.aggregates, run, i, done, check.value);
      done := done + [check.value];
    }
    assert entity.aggregates[..|entity.aggregates|] == entity.aggregates;
    checks := Some(done);
  }

  lemma {:induction false} CollectStep<T>(items: seq<T>, check: T -> Option<CheckResult>, i: nat,
                            done: seq<CheckResult>, next: CheckResult)
    requires i < |items| && Collect(items[..i], check) == Some(done) && check(items[i]) == Some(next)
    ensures Collect(items[..i + 1], check) == Some(done + [next])
  {
    assert items[..i + 1][..i] == items[..i];
  }

  lemma {:induction false} CollectFails<T>(items: seq<T>, check: T -> Option<CheckResult>, i: nat)
    requires i < |items| && check(items[i]).None?
    ensures Collect(items, check).None?
  {
  }

  method CompareEntity(lib: Library, entity: EntityRule, source: seq<Row>, candidate: seq<Row>, deleted: seq<Row>)
    returns (checks: Option<seq<CheckResult>>)
    ensures checks == EntityChecks(lib, entity, source, candidate, deleted)
  {
    var presence, count := PresenceCheck(entity, source, candidate), CountCheck(entity, source, candidate);
    var done := [presence, count];
    var keys := Resolve(entity.columns, entity.keyColumns);
    if keys.None? { return None; }
    var partitions := PartitionChecks(lib, entity, source, candidate);
    if partitions.None? { return None; }
    done := done + partitions.value;
    var deletes := [];
    if entity.readsDeletes {
      var check := DeleteCheck(lib, entity, candidate, deleted, keys.value);
      if check.None? { return None; }
      deletes := [check.value];
    }
    done := done + deletes;
    var checksums := ChecksumChecks(lib, entity, source, candidate, keys.value);
    if checksums.None? { return None; }
    done := done + checksums.value;
    var aggregates := AggregateChecks(lib, entity, source, candidate);
    if aggregates.None? { return None; }
    assert done + aggregates.value
        == InOrder(presence, count, partitions.value, deletes, checksums.value, aggregates.value);
    checks := Some(done + aggregates.value);
  }

  // The body of the per-entity `try`, with its handler.
  method GuardedChecks(lib: Library, entity: EntityRule, readers: Readers) returns (checks: seq<CheckResult>)
    ensures checks == Guarded(lib, entity, readers)
  {
    var source := readers.source(entity.name);
    var candidate := readers.candidate(entity.name);
    var deleted := DeletedKeys(entity, readers);
    if source.None? || candidate.None? || deleted.None? { return [QueryFailure(entity)]; }
    var compared := CompareEntity(lib, entity, source.value, candidate.value, deleted.value);
    checks := if compared.Some? then compared.value else [QueryFailure(entity)];
  }

  method Validate(lib: Library, ctx: Context, entities: seq<EntityRule>,
                  readers: Readers) returns (report: ValidationReport)
    ensures report == Report(ctx, AllChecks(lib, entities, readers))
  {
    var checks: seq<CheckResult> := [];
    for i := 0 to |entities|
      invariant checks == AllChecks(lib, entities[..i], readers)
    {
      assert entities[..i + 1][..i] == entities[..i];
      var guarded := GuardedChecks(lib, entities[i], readers);
      checks := checks + guarded;
    }
    assert entities[..|entities|] == entities;
    var passed := HavePassed(checks);
    report := ValidationReport(ctx.runId, ctx.batch, checks != [] && passed, checks);
  }

  method HavePassed(checks: seq<CheckResult>) returns (passed: bool)
    ensures passed == AllPassed(checks)
  {
    for i := 0 to |checks|
      invariant AllPassed(checks[..i])
    {
      if !checks[i].passed { return false; }
    }
    passed := true;
  }
}
