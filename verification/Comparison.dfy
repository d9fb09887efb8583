/** Cross-engine comparison (src/millrace/validation/comparison.py): readers that remember
    what they fetched, validation of several targets against them, and the comparison of
    the reports. */
module Comparison {
  import opened Models
  import opened Canonical
  import opened Gate

  // ---- caching readers ------------------------------------------------------------------------

  type Cache = map<(string, int), seq<Row>>

  // What a caching reader answers; `live` is the wrapped reader's answer now, None if it raises.
  function Answer(cache: Cache, key: (string, int), live: Option<seq<Row>>): Option<seq<Row>> {
    if key in cache then Some(cache[key]) else live
  }

  function Remember(cache: Cache, key: (string, int), live: Option<seq<Row>>): Cache {
    if key in cache || live.None? then cache else cache[key := live.value]
  }

  // CachingSnapshotReader and CachingTombstoneReader, which differ in name only.
  class CachingReader {
    var cache: Cache

    constructor ()
      ensures cache == map[]
    {
      cache := map[];
    }

    method Fetch(entity: string, batch: int, live: Option<seq<Row>>) returns (rows: Option<seq<Row>>)
      modifies this
      ensures rows == Answer(old(cache), (entity, batch), live)
      ensures cache == Remember(old(cache), (entity, batch), live)
      ensures rows.Some? ==> (entity, batch) in cache && cache[(entity, batch)] == rows.value
    {
      var key := (entity, batch);
      if key !in cache {
        if live.None? { return None; }
        cache := cache[key := live.value];
      }
      rows := Some(cache[key]);
    }
  }

  // ---- one compare run ---------------------------------------------------------------------------

  datatype Caches = Caches(rows: Cache, tombstones: Cache)

  // The readers one target sees: its own candidate, the source through the caches.
  function Served(batch: int, live: Readers, caches: Caches): Readers {
    Readers(name => Answer(caches.rows, (name, batch), live.source(name)),
            live.candidate,
            if live.tombstones.None? then None
            else Some(name => Answer(caches.tombstones, (name, batch), live.tombstones.value(name))))
  }

  // The caches after one entity of one target. Each fetch happens only if the one before it answered.
  function After(entity: EntityRule, batch: int, live: Readers, caches: Caches): Caches {
    var key := (entity.name, batch);
    var rows := Remember(caches.rows, key, live.source(entity.name));
    if Answer(caches.rows, key, live.source(entity.name)).None? || live.candidate(entity.name).None?
       || !entity.readsDeletes || live.tombstones.None?
    then Caches(rows, caches.tombstones)
    else Caches(rows, Remember(caches.tombstones, key, live.tombstones.value(entity.name)))
  }

  // The caches before entity `n` of target `t`.
  function Before(entities: seq<EntityRule>, batch: int, lives: seq<Readers>, t: nat, n: nat): Caches
    requires t < |lives| && n <= |entities|
    decreases t, n
  {
    if n > 0 then After(entities[n - 1], batch, lives[t], Before(entities, batch, lives, t, n - 1))
    else if t > 0 then Before(entities, batch, lives, t - 1, |entities|)
    else Caches(map[], map[])
  }

  function Seen(entities: seq<EntityRule>, batch: int, lives: seq<Readers>, t: nat, n: nat): Readers
    requires t < |lives| && n < |entities|
  {
    Served(batch, lives[t], Before(entities, batch, lives, t, n))
  }

  // The checks of the first `n` entities of target `t`.
  function TargetChecks(lib: Library, entities: seq<EntityRule>, batch: int, lives: seq<Readers>, t: nat,
                        n: nat): seq<CheckResult>
    requires t < |lives| && n <= |entities|
  {
    if n == 0 then []
    else TargetChecks(lib, entities, batch, lives, t, n - 1)
         + Guarded(lib, entities[n - 1], Seen(entities, batch, lives, t, n - 1))
  }

  function TargetReport(lib: Library, ctx: Context, entities: seq<EntityRule>, lives: seq<Readers>,
                        t: nat): ValidationReport
    requires t < |lives|
  {
    Report(ctx, TargetChecks(lib, entities, ctx.batch, lives, t, |entities|))
  }

  // One entity of one target, as `validate` runs it over the caching readers.
  method CheckEntity(lib: Library, entity: EntityRule, batch: int, live: Readers,
                     source: CachingReader, tombstones: CachingReader) returns (checks: seq<CheckResult>)
    requires source != tombstones
    modifies source, tombstones
    ensures checks == Guarded(lib, entity, Served(batch, live, old(Caches(source.cache, tombstones.cache))))
    ensures Caches(source.cache, tombstones.cache)
         == After(entity, batch, live, old(Caches(source.cache, tombstones.cache)))
  {
    var rows := source.Fetch(entity.name, batch, live.source(entity.name));
    if rows.None? { return [QueryFailure(entity)]; }
    var candidate := live.candidate(entity.name);
    if candidate.None? { return [QueryFailure(entity)]; }
    var deleted: Option<seq<Row>> := Some([]);
    if entity.readsDeletes {
      if live.tombstones.None? { return [QueryFailure(entity)]; }
      deleted := tombstones.Fetch(entity.name, batch, live.tombstones.value(entity.name));
      if deleted.None? { return [QueryFailure(entity)]; }
    }
    var compared := CompareEntity(lib, entity, rows.value, candidate.value, deleted.value);
    checks := if compared.Some? then compared.value else [QueryFailure(entity)];
  }

  // `validate` for target `t`, over the shared caches.
  method RunTarget(lib: Library, ctx: Context, entities: seq<EntityRule>, lives: seq<Readers>, t: nat,
                   source: CachingReader, tombstones: CachingReader) returns (report: ValidationReport)
    requires t < |lives| && source != tombstones
    requires Caches(source.cache, tombstones.cache) == Before(entities, ctx.batch, lives, t, 0)
    modifies source, tombstones
    ensures report == TargetReport(lib, ctx, entities, lives, t)
    ensures Caches(source.cache, tombstones.cache) == Before(entities, ctx.batch, lives, t, |entities|)
  {
    var checks: seq<CheckResult> := [];
    for n := 0 to |entities|
      invariant checks == TargetChecks(lib, entities, ctx.batch, lives, t, n)
      invariant Caches(source.cache, tombstones.cache) == Before(entities, ctx.batch, lives, t, n)
    {
      var more := CheckEntity(lib, entities[n], ctx.batch, lives[t], source, tombstones);
      checks := checks + more;
    }
    var passed := HavePassed(checks);
    report := ValidationReport(ctx.runId, ctx.batch, checks != [] && passed, checks);
  }

  // These are the reports of the first targets, in order.
  ghost predicate AreReports(lib: Library, ctx: Context, entities: seq<EntityRule>, lives: seq<Readers>,
                             reports: seq<ValidationReport>) {
    |reports| <= |lives| && forall t :: 0 <= t < |reports| ==> reports[t] == TargetReport(lib, ctx, entities, lives, t)
  }

  lemma OneMoreReport(lib: Library, ctx: Context, entities: seq<EntityRule>, lives: seq<Readers>,
                      reports: seq<ValidationReport>, report: ValidationReport)
    requires AreReports(lib, ctx, entities, lives, reports) && |reports| < |lives|
    requires report == TargetReport(lib, ctx, entities, lives, |reports|)
    ensures AreReports(lib, ctx, entities, lives, reports + [report])
  {
  }

  lemma NextTarget(entities: seq<EntityRule>, batch: int, lives: seq<Readers>, t: nat)
    requires t + 1 < |lives|
    ensures Before(entities, batch, lives, t + 1, 0) == Before(entities, batch, lives, t, |entities|)
  {
  }

  // The loop over targets of _run_compare; every target has its own readers, the caches are shared.
  method RunTargets(lib: Library, ctx: Context, entities: seq<EntityRule>, lives: seq<Readers>)
    returns (reports: seq<ValidationReport>)
    ensures |reports| == |lives| && AreReports(lib, ctx, entities, lives, reports)
  {
    var source := new CachingReader();
    var tombstones := new CachingReader();
    reports := [];
    for t := 0 to |lives|
      invariant |reports| == t && AreReports(lib, ctx, entities, lives, reports)
      invariant t < |lives| ==> Caches(source.cache, tombstones.cache) == Before(entities, ctx.batch, lives, t, 0)
    {
      var report := RunTarget(lib, ctx, entities, lives, t, source, tombstones);
      if t + 1 < |lives| { NextTarget(entities, ctx.batch, lives, t); }
      OneMoreReport(lib, ctx, entities, lives, reports, report);
      reports := reports + [report];
    }
  }

  // ---- compare_reports -----------------------------------------------------------------------------

  datatype Target = Target(name: string, report: ValidationReport)

  datatype Signature = Signature(passed: bool, expected: CheckValue, actual: CheckValue)

  function SignatureOf(c: CheckResult): Signature { Signature(c.passed, c.expected, c.actual) }

  // The checks of one report by entity and name; a later check replaces an earlier one.
  function ByName(checks: seq<CheckResult>): map<(string, string), CheckResult> {
    if checks == [] then map[]
    else
      var last := checks[|checks| - 1];
      ByName(checks[..|checks| - 1])[(last.entity, last.name) := last]
  }

  function Signatures(checks: seq<CheckResult>): map<(string, string), Signature> {
    var m := ByName(checks);
    map k | k in m :: SignatureOf(m[k])
  }

  // by_check: per entity and name, the check of every target that has it.
  type Table = map<(string, string), map<string, CheckResult>>

  function AddChecks(table: Table, target: string, checks: seq<CheckResult>): Table {
    if checks == [] then table
    else
      var last := checks[|checks| - 1];
      AddCheck(AddChecks(table, target, checks[..|checks| - 1]), target, last)
  }

  function AddCheck(table: Table, target: string, check: CheckResult): Table {
    var key := (check.entity, check.name);
    table[key := (if key in table then table[key] else map[])[target := check]]
  }

  function TableOf(reports: seq<Target>): Table {
    if reports == [] then map[]
    else
      var last := reports[|reports| - 1];
      AddChecks(TableOf(reports[..|reports| - 1]), last.name, last.report.checks)
  }

  function Names(reports: seq<Target>): set<string> { set r | r in reports :: r.name }

  datatype Disagreement = Missing(on: set<string>) | Differ(results: map<string, Signature>)

  // The verdict on one check; `first` is the first target.
  function Judge(targets: set<string>, first: string, per: map<string, CheckResult>): Option<Disagreement> {
    if per.Keys != targets then Some(Missing(targets - per.Keys))
    else if exists r :: r in per.Keys && first in per.Keys && SignatureOf(per[r]) != SignatureOf(per[first])
    then Some(Differ(map r | r in per :: SignatureOf(per[r])))
    else None
  }

  function Disagreements(reports: seq<Target>): map<(string, string), Disagreement> {
    var table := TableOf(reports);
    map k | k in table && Judge(Names(reports), FirstName(reports), table[k]).Some?
      :: Judge(Names(reports), FirstName(reports), table[k]).value
  }

  function FirstName(reports: seq<Target>): string { if reports == [] then "" else reports[0].name }

  predicate AllReportsPassed(reports: seq<Target>) { forall r :: r in reports ==> r.report.passed }

  predicate Agreed(reports: seq<Target>) { AllReportsPassed(reports) && Disagreements(reports) == map[] }

  method CompareReports(reports: seq<Target>) returns (passed: bool, disagreements: map<(string, string), Disagreement>)
    ensures passed == Agreed(reports)
    ensures disagreements == Disagreements(reports)
  {
    var byCheck: Table := map[];
    passed := true;
    for i := 0 to |reports|
      invariant byCheck == TableOf(reports[..i]) && passed == AllReportsPassed(reports[..i])
    {
      var target := reports[i];
      assert reports[..i + 1][..i] == reports[..i];
      ghost var before := byCheck;
      for j := 0 to |target.report.checks|
        invariant byCheck == AddChecks(before, target.name, target.report.checks[..j])
      {
        assert target.report.checks[..j + 1][..j] == target.report.checks[..j];
        byCheck := AddCheck(byCheck, target.name, target.report.checks[j]);
      }
      assert target.report.checks[..|target.report.checks|] == target.report.checks;
      passed := passed && target.report.passed;
    }
    assert reports[..|reports|] == reports;
    disagreements := JudgeAll(byCheck, Names(reports), FirstName(reports));
    assert disagreements == Disagreements(reports);
    passed := passed && disagreements == map[];
  }

  // The loop over by_check, which collects the disagreements.
  method JudgeAll(byCheck: Table, targets: set<string>, first: string)
    returns (disagreements: map<(string, string), Disagreement>)
    ensures disagreements == map k | k in byCheck && Judge(targets, first, byCheck[k]).Some?
                               :: Judge(targets, first, byCheck[k]).value
  {
    disagreements := map[];
    var left := byCheck.Keys;
    while left != {}
      invariant left <= byCheck.Keys
      invariant forall k :: k in disagreements <==> k in byCheck.Keys - left && Judge(targets, first, byCheck[k]).Some?
      invariant forall k :: k in disagreements ==> Judge(targets, first, byCheck[k]) == Some(disagreements[k])
      decreases left
    {
      var k :| k in left;
      var verdict := Judge(targets, first, byCheck[k]);
      if verdict.Some? { disagreements := disagreements[k := verdict.value]; }
      left := left - {k};
    }
  }
}
