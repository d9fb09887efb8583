/** When the checks of a report have names of their own, so that none hides another in a
    cross-engine comparison. */
module CheckNames {
  import opened Models
  import opened Canonical
  import opened Gate
  import Comparison
  import opened ComparisonTheorems

  // ---- lists of checks ---------------------------------------------------------------------------

  ghost predicate Apart(a: seq<CheckResult>, b: seq<CheckResult>) {
    forall x, y :: x in a && y in b ==> (x.entity, x.name) != (y.entity, y.name)
  }

  lemma UniqueTogether(a: seq<CheckResult>, b: seq<CheckResult>)
    requires Apart(a, b)
    ensures UniqueNames(a + b) <==> UniqueNames(a) && UniqueNames(b)
  {
    var all := a + b;
    if UniqueNames(all) {
      forall i, j | 0 <= i < j < |a| ensures (a[i].entity, a[i].name) != (a[j].entity, a[j].name) {
        assert all[i] == a[i] && all[j] == a[j];
      }
      forall i, j | 0 <= i < j < |b| ensures (b[i].entity, b[i].name) != (b[j].entity, b[j].name) {
        assert all[|a| + i] == b[i] && all[|a| + j] == b[j];
      }
    }
  }

  // All these names begin with one character.
  ghost predicate Begin(checks: seq<CheckResult>, c: char) {
    forall x :: x in checks ==> x.name != "" && x.name[0] == c
  }

  ghost predicate BeginOtherwise(checks: seq<CheckResult>, c: char) {
    forall x :: x in checks ==> x.name != "" && x.name[0] != c
  }

  // One more family of names, all beginning with a character no name had so far.
  lemma OneMoreFamily(a: seq<CheckResult>, b: seq<CheckResult>, c: char)
    requires BeginOtherwise(a, c) && Begin(b, c)
    ensures UniqueNames(a + b) <==> UniqueNames(a) && UniqueNames(b)
    ensures forall d :: BeginOtherwise(a, d) && c != d ==> BeginOtherwise(a + b, d)
  {
    UniqueTogether(a, b);
  }

  // ---- the checks of one entity --------------------------------------------------------------------

  ghost predicate Distinct(names: seq<string>) { forall i, j :: 0 <= i < j < |names| ==> names[i] != names[j] }

  function PartitionNames(entity: EntityRule): seq<string> {
    seq(|entity.partitions|, i requires 0 <= i < |entity.partitions| => entity.partitions[i].name)
  }

  function ColumnNames(entity: EntityRule): seq<string> {
    seq(|entity.columns|, i requires 0 <= i < |entity.columns| => entity.columns[i].name)
  }

  function AggregateNames(entity: EntityRule): seq<string> {
    seq(|entity.aggregates|, i requires 0 <= i < |entity.aggregates| => entity.aggregates[i].name)
  }

  // The checks of one entity are named by a prefix and the names of their rules.
  ghost predicate Named(checks: seq<CheckResult>, entity: string, prefix: string, names: seq<string>) {
    && |checks| == |names|
    && forall i :: 0 <= i < |checks| ==> checks[i].entity == entity && checks[i].name == prefix + names[i]
  }

  lemma NamedAreUnique(checks: seq<CheckResult>, entity: string, prefix: string, names: seq<string>)
    requires Named(checks, entity, prefix, names) && prefix != ""
    ensures UniqueNames(checks) <==> Distinct(names)
    ensures Begin(checks, prefix[0])
  {
    forall i, j | 0 <= i < j < |checks| ensures checks[i].name != checks[j].name <==> names[i] != names[j] {
      SameTail(prefix, names[i], names[j]);
    }
    if Distinct(names) {
      forall i, j | 0 <= i < j < |checks|
        ensures (checks[i].entity, checks[i].name) != (checks[j].entity, checks[j].name)
      {
        assert names[i] != names[j];
      }
    }
    if UniqueNames(checks) {
      forall i, j | 0 <= i < j < |names| ensures names[i] != names[j] {
        assert (checks[i].entity, checks[i].name) != (checks[j].entity, checks[j].name);
      }
    }
  }

  lemma PartitionsAreNamed(lib: Library, entity: EntityRule, a: seq<Row>, b: seq<Row>)
    ensures var r := PartitionResults(lib, entity, a, b);
            r.Some? ==> Named(r.value, entity.name, "partition_count:", PartitionNames(entity))
  {
  }

  lemma ChecksumsAreNamed(lib: Library, entity: EntityRule, a: seq<Row>, b: seq<Row>, keys: seq<ColumnRule>)
    ensures var r := ChecksumResults(lib, entity, a, b, keys);
            r.Some? ==> Named(r.value, entity.name, "checksum:", ColumnNames(entity))
  {
  }

  lemma AggregatesAreNamed(lib: Library, entity: EntityRule, a: seq<Row>, b: seq<Row>)
    ensures var r := AggregateResults(lib, entity, a, b);
            r.Some? ==> Named(r.value, entity.name, "aggregate:", AggregateNames(entity))
  {
  }

  // The five parts of an entity's checks, each with names of its own kind.
  lemma InOrderUnique(presence: CheckResult, count: CheckResult, partitions: seq<CheckResult>,
                      deletes: seq<CheckResult>,
                      checksums: seq<CheckResult>, aggregates: seq<CheckResult>)
    requires presence.name == "non_empty" && count.name == "row_count" && |deletes| <= 1
    requires Begin(partitions, 'p') && Begin(deletes, 'd') && Begin(checksums, 'c') && Begin(aggregates, 'a')
    ensures UniqueNames(InOrder(presence, count, partitions, deletes, checksums, aggregates))
       <==> UniqueNames(partitions) && UniqueNames(checksums) && UniqueNames(aggregates)
  {
    var start := [presence, count];
    assert presence.name[0] != count.name[0];
    OneMoreFamily(start, partitions, 'p');
    OneMoreFamily(start + partitions, deletes, 'd');
    OneMoreFamily(start + partitions + deletes, checksums, 'c');
    OneMoreFamily(start + partitions + deletes + checksums, aggregates, 'a');
  }

  // Nothing but the failing check an exception leaves.
  ghost predicate CouldNotRun(lib: Library, entity: EntityRule, readers: Readers) {
    Guarded(lib, entity, readers) == [QueryFailure(entity)]
  }

  ghost predicate RulesNamedApart(entity: EntityRule) {
    Distinct(PartitionNames(entity)) && Distinct(AggregateNames(entity))
  }

  // The parts an entity's checks are made of.
  lemma PartsOf(lib: Library, entity: EntityRule, a: seq<Row>, b: seq<Row>, deleted: seq<Row>)
    returns (partitions: seq<CheckResult>, deletes: seq<CheckResult>, sums: seq<CheckResult>,
             aggregates: seq<CheckResult>)
    requires EntityChecks(lib, entity, a, b, deleted).Some?
    ensures EntityChecks(lib, entity, a, b, deleted).value
         == InOrder(PresenceCheck(entity, a, b), CountCheck(entity, a, b), partitions, deletes, sums, aggregates)
    ensures Named(partitions, entity.name, "partition_count:", PartitionNames(entity))
    ensures Named(sums, entity.name, "checksum:", ColumnNames(entity))
    ensures Named(aggregates, entity.name, "aggregate:", AggregateNames(entity))
    ensures |deletes| <= 1 && forall c :: c in deletes ==> c.entity == entity.name && c.name == "deleted_absent"
  {
    var keys := Resolve(entity.columns, entity.keyColumns).value;
    partitions, sums := PartitionResults(lib, entity, a, b).value, ChecksumResults(lib, entity, a, b, keys).value;
    aggregates := AggregateResults(lib, entity, a, b).value;
    deletes := if entity.readsDeletes then [DeleteCheck(lib, entity, b, deleted, keys).value] else [];
    PartitionsAreNamed(lib, entity, a, b);
    ChecksumsAreNamed(lib, entity, a, b, keys);
    AggregatesAreNamed(lib, entity, a, b);
  }

  lemma EntityNamesUnique(lib: Library, entity: EntityRule, a: seq<Row>, b: seq<Row>, deleted: seq<Row>)
    requires Distinct(ColumnNames(entity)) && EntityChecks(lib, entity, a, b, deleted).Some?
    ensures UniqueNames(EntityChecks(lib, entity, a, b, deleted).value) <==> RulesNamedApart(entity)
    ensures forall c :: c in EntityChecks(lib, entity, a, b, deleted).value ==> c.entity == entity.name
  {
    var partitions, deletes, sums, aggregates := PartsOf(lib, entity, a, b, deleted);
    NamedAreUnique(partitions, entity.name, "partition_count:", PartitionNames(entity));
    NamedAreUnique(sums, entity.name, "checksum:", ColumnNames(entity));
    NamedAreUnique(aggregates, entity.name, "aggregate:", AggregateNames(entity));
    var presence, count := PresenceCheck(entity, a, b), CountCheck(entity, a, b);
    InOrderUnique(presence, count, partitions, deletes, sums, aggregates);
    InOrderOf(entity.name, presence, count, partitions, deletes, sums, aggregates);
  }

  lemma InOrderOf(entity: string, presence: CheckResult, count: CheckResult, partitions: seq<CheckResult>,
                  deletes: seq<CheckResult>, checksums: seq<CheckResult>, aggregates: seq<CheckResult>)
    requires presence.entity == entity && count.entity == entity
    requires forall c :: c in partitions || c in deletes || c in checksums || c in aggregates ==> c.entity == entity
    ensures forall c :: c in InOrder(presence, count, partitions, deletes, checksums, aggregates) ==> c.entity == entity
  {
  }

  lemma GuardedUnique(lib: Library, entity: EntityRule, readers: Readers)
    requires Distinct(ColumnNames(entity))
    ensures UniqueNames(Guarded(lib, entity, readers)) <==> EntityNamedApart(lib, entity, readers)
    ensures forall c :: c in Guarded(lib, entity, readers) ==> c.entity == entity.name
  {
    var a, b, deleted := readers.source(entity.name), readers.candidate(entity.name), DeletedKeys(entity, readers);
    if a.Some? && b.Some? && deleted.Some? && EntityChecks(lib, entity, a.value, b.value, deleted.value).Some? {
      EntityNamesUnique(lib, entity, a.value, b.value, deleted.value);
      assert EntityChecks(lib, entity, a.value, b.value, deleted.value).value[0].name == "non_empty";
    }
  }

  // ---- one target ----------------------------------------------------------------------------------

  // The entity's checks could not be run, or its partitions and its aggregates have names of their own.
  ghost predicate EntityNamedApart(lib: Library, entity: EntityRule, readers: Readers) {
    CouldNotRun(lib, entity, readers) || RulesNamedApart(entity)
  }

  // What the configuration is checked for when it is loaded.
  ghost predicate Configured(entities: seq<EntityRule>) {
    && (forall i, j :: 0 <= i < j < |entities| ==> entities[i].name != entities[j].name)
    && forall e :: e in entities ==> Distinct(ColumnNames(e))
  }

  // This holds of entity `i` of target `t` ...
  ghost predicate ApartAt(lib: Library, entities: seq<EntityRule>, batch: int, lives: seq<Readers>, t: nat, i: nat)
    requires t < |lives| && i < |entities|
  {
    EntityNamedApart(lib, entities[i], Comparison.Seen(entities, batch, lives, t, i))
  }

  // ... and of all its entities.
  ghost predicate NamedApart(lib: Library, entities: seq<EntityRule>, batch: int, lives: seq<Readers>, t: nat)
    requires t < |lives|
  {
    forall i :: 0 <= i < |entities| ==> ApartAt(lib, entities, batch, lives, t, i)
  }

  // The checks of the first entities, one list after another.
  function Joined(blocks: seq<seq<CheckResult>>, n: nat): seq<CheckResult>
    requires n <= |blocks|
  {
    if n == 0 then [] else Joined(blocks, n - 1) + blocks[n - 1]
  }

  // Every list belongs to an entity of its own.
  ghost predicate Owned(blocks: seq<seq<CheckResult>>, names: seq<string>) {
    && |blocks| == |names| && Distinct(names)
    && forall i, c :: 0 <= i < |blocks| && c in blocks[i] ==> c.entity == names[i]
  }

  ghost predicate Within(checks: seq<CheckResult>, names: seq<string>, n: nat)
    requires n <= |names|
  {
    forall c :: c in checks ==> exists i :: 0 <= i < n && c.entity == names[i]
  }

  lemma NextBlock(front: seq<CheckResult>, more: seq<CheckResult>, names: seq<string>, n: nat)
    requires Distinct(names) && n < |names| && Within(front, names, n)
    requires forall c :: c in more ==> c.entity == names[n]
    ensures Within(front + more, names, n + 1)
    ensures UniqueNames(front + more) <==> UniqueNames(front) && UniqueNames(more)
  {
    forall c | c in front + more ensures exists i :: 0 <= i < n + 1 && c.entity == names[i] {
      if c in front { var i :| 0 <= i < n && c.entity == names[i]; }
    }
    UniqueTogether(front, more);
  }

  lemma {:induction false} JoinedUnique(blocks: seq<seq<CheckResult>>, names: seq<string>, n: nat)
    requires Owned(blocks, names) && n <= |blocks|
    ensures UniqueNames(Joined(blocks, n)) <==> forall i :: 0 <= i < n ==> UniqueNames(blocks[i])
    ensures Within(Joined(blocks, n), names, n)
  {
    if n > 0 {
      JoinedUnique(blocks, names, n - 1);
      NextBlock(Joined(blocks, n - 1), blocks[n - 1], names, n - 1);
    }
  }

  // The lists a target's report is made of.
  ghost predicate BlocksOf(blocks: seq<seq<CheckResult>>, lib: Library, entities: seq<EntityRule>, batch: int,
                           lives: seq<Readers>, t: nat)
    requires t < |lives|
  {
    && |blocks| == |entities|
    && forall i :: 0 <= i < |entities| ==> BlockAt(blocks[i], lib, entities, batch, lives, t, i)
  }

  ghost predicate BlockAt(block: seq<CheckResult>, lib: Library, entities: seq<EntityRule>, batch: int,
                          lives: seq<Readers>, t: nat, i: nat)
    requires t < |lives| && i < |entities|
  {
    block == Guarded(lib, entities[i], Comparison.Seen(entities, batch, lives, t, i))
  }

  lemma NextJoined(front: seq<CheckResult>, block: seq<CheckResult>, lib: Library, entities: seq<EntityRule>,
                   batch: int,
                   lives: seq<Readers>, t: nat, n: nat)
    requires t < |lives| && n < |entities| && BlockAt(block, lib, entities, batch, lives, t, n)
    requires Comparison.TargetChecks(lib, entities, batch, lives, t, n) == front
    ensures Comparison.TargetChecks(lib, entities, batch, lives, t, n + 1) == front + block
  {
  }

  lemma NextBlocks(blocks: seq<seq<CheckResult>>, lib: Library, entities: seq<EntityRule>, batch: int,
                   lives: seq<Readers>,
                   t: nat, n: nat)
    requires t < |lives| && n < |entities| && |blocks| == |entities|
    requires BlockAt(blocks[n], lib, entities, batch, lives, t, n)
    requires Comparison.TargetChecks(lib, entities, batch, lives, t, n) == Joined(blocks, n)
    ensures Comparison.TargetChecks(lib, entities, batch, lives, t, n + 1) == Joined(blocks, n + 1)
  {
    NextJoined(Joined(blocks, n), blocks[n], lib, entities, batch, lives, t, n);
  }

  lemma {:induction false} ChecksAreJoined(blocks: seq<seq<CheckResult>>, lib: Library, entities: seq<EntityRule>,
                                           batch: int,
                                           lives: seq<Readers>, t: nat, n: nat)
    requires t < |lives| && n <= |entities| && BlocksOf(blocks, lib, entities, batch, lives, t)
    ensures Comparison.TargetChecks(lib, entities, batch, lives, t, n) == Joined(blocks, n)
  {
    if n > 0 {
      ChecksAreJoined(blocks, lib, entities, batch, lives, t, n - 1);
      NextBlocks(blocks, lib, entities, batch, lives, t, n - 1);
    }
  }

  lemma BlockIsOwned(blocks: seq<seq<CheckResult>>, lib: Library, entities: seq<EntityRule>, batch: int,
                     lives: seq<Readers>, t: nat, i: nat)
    requires t < |lives| && i < |entities| && Configured(entities) && BlocksOf(blocks, lib, entities, batch, lives, t)
    ensures UniqueNames(blocks[i]) <==> ApartAt(lib, entities, batch, lives, t, i)
    ensures forall c :: c in blocks[i] ==> c.entity == entities[i].name
  {
    GuardedUnique(lib, entities[i], Comparison.Seen(entities, batch, lives, t, i));
  }

  lemma TargetChecksUnique(lib: Library, entities: seq<EntityRule>, batch: int, lives: seq<Readers>, t: nat)
    requires t < |lives| && Configured(entities)
    ensures UniqueNames(Comparison.TargetChecks(lib, entities, batch, lives, t, |entities|))
       <==> NamedApart(lib, entities, batch, lives, t)
  {
    var blocks: seq<seq<CheckResult>> := seq(|entities|, i requires 0 <= i < |entities| =>
      Guarded(lib, entities[i], Comparison.Seen(entities, batch, lives, t, i)));
    var names := seq(|entities|, i requires 0 <= i < |entities| => entities[i].name);
    forall i | 0 <= i < |entities|
      ensures UniqueNames(blocks[i]) <==> ApartAt(lib, entities, batch, lives, t, i)
      ensures forall c: CheckResult :: c in blocks[i] ==> c.entity == names[i]
    {
      BlockIsOwned(blocks, lib, entities, batch, lives, t, i);
    }
    ChecksAreJoined(blocks, lib, entities, batch, lives, t, |entities|);
    JoinedUnique(blocks, names, |entities|);
  }

  /** A target's report has unique check names exactly when every entity's checks could not be
      run, or its partitions and its aggregates have names of their own, which the configuration
      is not checked for. Only then does the comparison hold as many checks as the report. */
  lemma ReportNamesUniqueExactlyWhen(lib: Library, ctx: Context, entities: seq<EntityRule>, lives: seq<Readers>, t: nat)
    requires t < |lives| && Configured(entities)
    ensures var checks := Comparison.TargetReport(lib, ctx, entities, lives, t).checks;
            && (UniqueNames(checks) <==> NamedApart(lib, entities, ctx.batch, lives, t))
            && (|Comparison.Signatures(checks)| == |checks| <==> NamedApart(lib, entities, ctx.batch, lives, t))
  {
    TargetChecksUnique(lib, entities, ctx.batch, lives, t);
    AsManyAsChecks(Comparison.TargetReport(lib, ctx, entities, lives, t).checks);
  }
}
