/** What cross-engine agreement means, and why a disagreement lies with a warehouse and not
    with the source. */
module ComparisonTheorems {
  import opened Models
  import opened Canonical
  import Framing
  import Reconciliation
  import opened Gate
  import GateTheorems
  import opened Comparison

  // ---- the table of checks ---------------------------------------------------------------------

  // A mapping has every key once.
  ghost predicate DistinctTargets(reports: seq<Target>) {
    forall i, j :: 0 <= i < j < |reports| ==> reports[i].name != reports[j].name
  }

  function Per(table: Table, key: (string, string)): map<string,
               CheckResult> { if key in table then table[key] else map[] }

  lemma {:induction false} AddChecksLookup(table: Table, target: string, checks: seq<CheckResult>,
                            key: (string, string))
    ensures var after := AddChecks(table, target, checks);
            && (key in after <==> key in table || key in ByName(checks))
            && Per(after, key) == if key in ByName(checks) then Per(table, key)[target := ByName(checks)[key]]
                else Per(table, key)
  {
    if checks != [] { AddChecksLookup(table, target, checks[..|checks| - 1], key); }
  }

  // The table's entry for one check and one target is the target's check.
  ghost predicate EntryIs(table: Table, key: (string, string), r: Target) {
    var per := Per(table, key);
    && (r.name in per <==> key in ByName(r.report.checks))
    && (r.name in per ==> per[r.name] == ByName(r.report.checks)[key])
  }

  ghost predicate Reported(reports: seq<Target>, key: (string, string)) {
    exists r :: r in reports && key in ByName(r.report.checks)
  }

  // What the table says of one check is what the reports say of it.
  ghost predicate Tabulated(reports: seq<Target>, key: (string, string)) {
    && (key in TableOf(reports) <==> Reported(reports, key))
    && Per(TableOf(reports), key).Keys <= Names(reports)
    && forall r :: r in reports ==> EntryIs(TableOf(reports), key, r)
  }

  lemma ReportedAppend(front: seq<Target>, last: Target, key: (string, string))
    ensures Reported(front + [last], key) <==> Reported(front, key) || key in ByName(last.report.checks)
    ensures Names(front + [last]) == Names(front) + {last.name}
  {
  }

  // Adding one target's checks gives that target its entry and leaves the others theirs.
  lemma EntryStep(table: Table, last: Target, key: (string, string), r: Target)
    requires r.name != last.name && EntryIs(table, key, r)
    ensures EntryIs(AddChecks(table, last.name, last.report.checks), key, r)
  {
    AddChecksLookup(table, last.name, last.report.checks, key);
  }

  lemma OwnEntry(table: Table, last: Target, key: (string, string))
    requires last.name !in Per(table, key)
    ensures EntryIs(AddChecks(table, last.name, last.report.checks), key, last)
  {
    AddChecksLookup(table, last.name, last.report.checks, key);
  }

  lemma TabulatesStep(front: seq<Target>, last: Target, key: (string, string))
    requires Tabulated(front, key) && last.name !in Names(front)
    ensures Tabulated(front + [last], key)
  {
    var reports, table := front + [last], TableOf(front);
    AddChecksLookup(table, last.name, last.report.checks, key);
    ReportedAppend(front, last, key);
    assert reports[..|reports| - 1] == front;
    OwnEntry(table, last, key);
    forall r | r in reports ensures EntryIs(TableOf(reports), key, r) {
      if r in front {
        assert r.name in Names(front);
        EntryStep(table, last, key, r);
      }
    }
  }

  lemma FreshName(reports: seq<Target>, n: nat)
    requires DistinctTargets(reports) && n < |reports|
    ensures reports[n].name !in Names(reports[..n])
  {
  }

  lemma {:induction false} TableTabulates(reports: seq<Target>, key: (string, string))
    requires DistinctTargets(reports)
    ensures Tabulated(reports, key)
  {
    if reports != [] {
      var n := |reports| - 1;
      TableTabulates(reports[..n], key);
      FreshName(reports, n);
      TabulatesStep(reports[..n], reports[n], key);
      assert reports[..n] + [reports[n]] == reports;
    }
  }

  // ---- agreement -----------------------------------------------------------------------------------

  // The last check of an entity and name.
  ghost function LastNamed(checks: seq<CheckResult>, key: (string, string)): (found: Option<CheckResult>)
    ensures found.Some? ==> exists i :: 0 <= i < |checks| && IsLast(checks, key, i) && found == Some(checks[i])
    ensures found.None? ==> forall c :: c in checks ==> (c.entity, c.name) != key
  {
    if checks == [] then None
    else
      var n := |checks| - 1;
      if (checks[n].entity, checks[n].name) == key then assert IsLast(checks, key, n); Some(checks[n])
      else
        var found := LastNamed(checks[..n], key);
        assert forall i :: 0 <= i < n && IsLast(checks[..n], key, i) ==> IsLast(checks, key, i);
        found
  }

  ghost predicate IsLast(checks: seq<CheckResult>, key: (string, string), i: nat)
    requires i < |checks|
  {
    (checks[i].entity, checks[i].name) == key
    && forall j :: i < j < |checks| ==> (checks[j].entity, checks[j].name) != key
  }

  lemma {:induction false} ByNameIsLast(checks: seq<CheckResult>, key: (string, string))
    ensures LastNamed(checks, key) == if key in ByName(checks) then Some(ByName(checks)[key]) else None
  {
    if checks != [] { ByNameIsLast(checks[..|checks| - 1], key); }
  }

  ghost predicate SameOutcome(c: CheckResult, d: CheckResult) {
    c.passed == d.passed && c.expected == d.expected && c.actual == d.actual
  }

  // Two lists hold checks of the same entities and names, with the same outcome.
  ghost predicate SameOutcomes(a: seq<CheckResult>, b: seq<CheckResult>) {
    forall key ::
      var c, d := LastNamed(a, key), LastNamed(b, key);
      (c.Some? <==> d.Some?) && (c.Some? ==> SameOutcome(c.value, d.value))
  }

  lemma SignaturesAreOutcomes(a: seq<CheckResult>, b: seq<CheckResult>)
    ensures Signatures(a) == Signatures(b) <==> SameOutcomes(a, b)
  {
    forall key
      ensures LastNamed(a, key) == if key in ByName(a) then Some(ByName(a)[key]) else None
      ensures LastNamed(b, key) == if key in ByName(b) then Some(ByName(b)[key]) else None
    {
      ByNameIsLast(a, key);
      ByNameIsLast(b, key);
    }
    if Signatures(a) == Signatures(b) {
      forall key
        ensures LastNamed(a, key).Some? <==> LastNamed(b, key).Some?
        ensures LastNamed(a, key).Some? ==> SameOutcome(LastNamed(a, key).value, LastNamed(b, key).value)
      {
        assert key in Signatures(a) <==> key in Signatures(b);
        if key in Signatures(a) { assert Signatures(a)[key] == Signatures(b)[key]; }
      }
    }
    if SameOutcomes(a, b) {
      forall key ensures key in Signatures(a) <==> key in Signatures(b)
                 ensures key in Signatures(a) ==> Signatures(a)[key] == Signatures(b)[key]
      {
        assert LastNamed(a, key).Some? <==> LastNamed(b, key).Some?;
      }
    }
  }

  // All targets have the same checks, by entity and name, with the same outcomes.
  ghost predicate OneOutcome(reports: seq<Target>) {
    forall r, q :: r in reports && q in reports ==> SameOutcomes(r.report.checks, q.report.checks)
  }

  ghost predicate OneVerdict(reports: seq<Target>) {
    forall r, q :: r in reports && q in reports ==> Signatures(r.report.checks) == Signatures(q.report.checks)
  }

  lemma JudgeAgrees(reports: seq<Target>, key: (string, string), r: Target, q: Target)
    requires DistinctTargets(reports) && r in reports && q in reports && key in ByName(r.report.checks)
    requires key in TableOf(reports) ==> Judge(Names(reports), FirstName(reports), TableOf(reports)[key]).None?
    ensures key in ByName(q.report.checks)
    ensures SignatureOf(ByName(q.report.checks)[key]) == SignatureOf(ByName(r.report.checks)[key])
  {
    TableTabulates(reports, key);
    var per := TableOf(reports)[key];
    assert q.name in Names(reports) && r.name in Names(reports);
    assert reports[0] in reports && FirstName(reports) in Names(reports);
    assert SignatureOf(per[q.name]) == SignatureOf(per[FirstName(reports)]);
    assert SignatureOf(per[r.name]) == SignatureOf(per[FirstName(reports)]);
  }

  lemma HasTheVerdict(reports: seq<Target>, key: (string, string), r: Target, q: Target)
    requires Tabulated(reports, key) && OneVerdict(reports) && r in reports && q in reports
          && key in ByName(r.report.checks)
    ensures q.name in Per(TableOf(reports), key)
    ensures SignatureOf(Per(TableOf(reports), key)[q.name]) == SignatureOf(ByName(r.report.checks)[key])
  {
    assert key in Signatures(r.report.checks) && key in Signatures(q.report.checks);
    assert Signatures(q.report.checks)[key] == Signatures(r.report.checks)[key];
  }

  lemma JudgeUniform(targets: set<string>, first: string, per: map<string, CheckResult>, signature: Signature)
    requires per.Keys == targets && first in targets && forall n :: n in targets ==> SignatureOf(per[n]) == signature
    ensures Judge(targets, first, per).None?
  {
  }

  lemma AllHaveTheVerdict(reports: seq<Target>, key: (string, string), r: Target)
    requires Tabulated(reports, key) && OneVerdict(reports) && r in reports && key in ByName(r.report.checks)
    ensures var per := Per(TableOf(reports), key);
            && per.Keys == Names(reports)
            && forall n :: n in Names(reports) ==> SignatureOf(per[n]) == SignatureOf(ByName(r.report.checks)[key])
  {
    var per := Per(TableOf(reports), key);
    forall n | n in Names(reports)
      ensures n in per && SignatureOf(per[n]) == SignatureOf(ByName(r.report.checks)[key])
    {
      var q :| q in reports && q.name == n;
      HasTheVerdict(reports, key, r, q);
    }
  }

  lemma JudgeNone(reports: seq<Target>, key: (string, string))
    requires DistinctTargets(reports) && OneVerdict(reports) && key in TableOf(reports)
    ensures Judge(Names(reports), FirstName(reports), TableOf(reports)[key]).None?
  {
    TableTabulates(reports, key);
    var r :| r in reports && key in ByName(r.report.checks);
    AllHaveTheVerdict(reports, key, r);
    assert reports[0] in reports;
    JudgeUniform(Names(reports), FirstName(reports), TableOf(reports)[key], SignatureOf(ByName(r.report.checks)[key]));
  }

  /** A comparison passes exactly when every report passed and all targets give every check,
      by entity and name, the same verdict, expected value and actual value. */
  lemma ComparisonDecides(reports: seq<Target>)
    requires DistinctTargets(reports)
    ensures Agreed(reports) <==> AllReportsPassed(reports) && OneOutcome(reports)
  {
    forall r, q | r in reports && q in reports
      ensures Signatures(r.report.checks) == Signatures(q.report.checks)
         <==> SameOutcomes(r.report.checks, q.report.checks)
    {
      SignaturesAreOutcomes(r.report.checks, q.report.checks);
    }
    AgreedIsOneVerdict(reports);
  }

  lemma AgreedIsOneVerdict(reports: seq<Target>)
    requires DistinctTargets(reports)
    ensures Agreed(reports) <==> AllReportsPassed(reports) && OneVerdict(reports)
  {
    if Disagreements(reports) == map[] {
      forall r, q | r in reports && q in reports ensures Signatures(r.report.checks) == Signatures(q.report.checks) {
        forall k
          ensures k in ByName(r.report.checks) <==> k in ByName(q.report.checks)
          ensures k in ByName(r.report.checks)
              ==> SignatureOf(ByName(q.report.checks)[k]) == SignatureOf(ByName(r.report.checks)[k])
        {
          assert k in TableOf(reports) ==> k !in Disagreements(reports);
          if k in ByName(r.report.checks) { JudgeAgrees(reports, k, r, q); }
          if k in ByName(q.report.checks) { JudgeAgrees(reports, k, q, r); }
        }
      }
    }
    if OneVerdict(reports) {
      forall k | k in TableOf(reports) ensures Judge(Names(reports), FirstName(reports), TableOf(reports)[k]).None? {
        JudgeNone(reports, k);
      }
      assert Disagreements(reports) == map[];
    }
  }

  // The targets whose report has this check.
  ghost function Having(reports: seq<Target>, key: (string, string)): set<string> {
    set r | r in reports && key in ByName(r.report.checks) :: r.name
  }

  // Every target with its own verdict, expected and actual value, not all of them equal.
  ghost predicate ResultsDiffer(reports: seq<Target>, key: (string, string), results: map<string, Signature>) {
    && results.Keys == Names(reports)
    && (forall r :: r in reports && key in ByName(r.report.checks) ==>
          r.name in results && results[r.name] == SignatureOf(ByName(r.report.checks)[key]))
    && exists m, n :: m in results && n in results && results[m] != results[n]
  }

  /** A disagreement says what it should: `Missing` names exactly the targets without the check, and
      `Differ`, given only when all targets have it, what each of them says. */
  lemma DisagreementsMean(reports: seq<Target>, key: (string, string))
    requires DistinctTargets(reports) && key in Disagreements(reports)
    ensures match Disagreements(reports)[key]
            case Missing(on) => on == Names(reports) - Having(reports, key) && on != {}
            case Differ(results) => Names(reports) == Having(reports, key) && ResultsDiffer(reports, key, results)
  {
    TableTabulates(reports, key);
    var per := Per(TableOf(reports), key);
    HavingIs(reports, key);
    assert Disagreements(reports)[key] == Judge(Names(reports), FirstName(reports), per).value;
    if per.Keys == Names(reports) {
      forall r | r in reports ensures key in ByName(r.report.checks) && per[r.name] == ByName(r.report.checks)[key] {
        assert r.name in Names(reports) && EntryIs(TableOf(reports), key, r);
      }
      DifferMeans(reports, per, key);
    } else {
      SomeLack(Names(reports), per.Keys);
    }
  }

  lemma SomeLack(all: set<string>, some: set<string>)
    requires some <= all && some != all
    ensures all - some != {}
  {
    assert !(all <= some);
    var n :| n in all && n !in some;
    assert n in all - some;
  }

  lemma HavingIs(reports: seq<Target>, key: (string, string))
    requires Tabulated(reports, key)
    ensures Per(TableOf(reports), key).Keys == Having(reports, key)
  {
    var per := Per(TableOf(reports), key);
    forall n | n in per ensures n in Having(reports, key) {
      var r :| r in reports && r.name == n;
      assert EntryIs(TableOf(reports), key, r);
    }
    forall n | n in Having(reports, key) ensures n in per {
      var r :| r in reports && r.name == n && key in ByName(r.report.checks);
      assert EntryIs(TableOf(reports), key, r);
    }
  }

  lemma DifferMeans(reports: seq<Target>, per: map<string, CheckResult>, key: (string, string))
    requires per.Keys == Names(reports)
    requires forall r :: r in reports ==> key in ByName(r.report.checks) && per[r.name] == ByName(r.report.checks)[key]
    ensures var verdict := Judge(Names(reports), FirstName(reports), per);
            verdict.Some? ==> verdict.value.Differ? && ResultsDiffer(reports, key, verdict.value.results)
  {
    var first := FirstName(reports);
    var verdict := Judge(Names(reports), first, per);
    if verdict.Some? {
      var results := verdict.value.results;
      var n :| n in per.Keys && first in per.Keys && SignatureOf(per[n]) != SignatureOf(per[first]);
      assert results[n] != results[first];
    }
  }

  /** The order of the targets plays no part. */
  lemma TargetOrderPlaysNoPart(a: seq<Target>, b: seq<Target>)
    requires DistinctTargets(a) && DistinctTargets(b) && forall t :: t in a <==> t in b
    ensures Agreed(a) <==> Agreed(b)
  {
    ComparisonDecides(a);
    ComparisonDecides(b);
  }

  ghost predicate UniqueNames(checks: seq<CheckResult>) {
    forall i, j :: 0 <= i < j < |checks| ==> (checks[i].entity, checks[i].name) != (checks[j].entity, checks[j].name)
  }

  /** With unique names no check of a report escapes the comparison. */
  lemma {:induction false} EveryCheckIsCompared(checks: seq<CheckResult>)
    requires UniqueNames(checks)
    ensures forall k :: k in Signatures(checks) <==> exists c :: c in checks && (c.entity, c.name) == k
    ensures forall c :: c in checks ==> Signatures(checks)[(c.entity, c.name)] == SignatureOf(c)
  {
    if checks != [] {
      var n := |checks| - 1;
      EveryCheckIsCompared(checks[..n]);
      assert forall c :: c in checks <==> c in checks[..n] || c == checks[n];
      forall c | c in checks[..n] ensures (c.entity, c.name) != (checks[n].entity, checks[n].name) {
        var i :| 0 <= i < n && checks[i] == c;
      }
      var before, after := Signatures(checks[..n]), Signatures(checks);
      assert after == before[(checks[n].entity, checks[n].name) := SignatureOf(checks[n])];
    }
  }

  // ---- one source for all targets --------------------------------------------------------------------

  ghost predicate Grows(c: Cache, d: Cache) { forall k :: k in c ==> k in d && d[k] == c[k] }

  ghost predicate BothGrow(c: Caches, d: Caches) { Grows(c.rows, d.rows) && Grows(c.tombstones, d.tombstones) }

  lemma {:induction false} CachesGrow(entities: seq<EntityRule>, batch: int, lives: seq<Readers>, t: nat, n: nat,
                            u: nat, m: nat)
    requires t <= u < |lives| && n <= |entities| && m <= |entities| && (t == u ==> n <= m)
    ensures BothGrow(Before(entities, batch, lives, t, n), Before(entities, batch, lives, u, m))
    decreases u, m
  {
    if t == u && n == m {
    } else if m > 0 {
      CachesGrow(entities, batch, lives, t, n, u, m - 1);
    } else {
      CachesGrow(entities, batch, lives, t, n, u - 1, |entities|);
    }
  }

  // Once a target has read an entity, every later target reads the same rows.
  lemma SameSource(entities: seq<EntityRule>, batch: int, lives: seq<Readers>, t: nat, u: nat, n: nat)
    requires t < u < |lives| && n < |entities|
    requires Seen(entities, batch, lives, t, n).source(entities[n].name).Some?
    ensures Seen(entities, batch, lives, u, n).source(entities[n].name)
         == Seen(entities, batch, lives, t, n).source(entities[n].name)
  {
    CachesGrow(entities, batch, lives, t, n + 1, u, n);
    assert (entities[n].name, batch) in Before(entities, batch, lives, t, n + 1).rows;
  }

  // And its candidate is held against the same tombstones.
  lemma SameTombstones(entities: seq<EntityRule>, batch: int, lives: seq<Readers>, t: nat, u: nat, n: nat)
    requires t < u < |lives| && n < |entities| && entities[n].readsDeletes
    requires var r := Seen(entities, batch, lives, t, n);
             && r.source(entities[n].name).Some? && r.candidate(entities[n].name).Some?
             && r.tombstones.Some? && r.tombstones.value(entities[n].name).Some?
    requires lives[u].tombstones.Some?
    ensures Seen(entities, batch, lives, u, n).tombstones.value(entities[n].name)
         == Seen(entities, batch, lives, t, n).tombstones.value(entities[n].name)
  {
    CachesGrow(entities, batch, lives, t, n + 1, u, n);
    assert (entities[n].name, batch) in Before(entities, batch, lives, t, n + 1).tombstones;
  }

  // Check by check: same name, kind and expected value.
  ghost predicate SameExpected(a: seq<CheckResult>, b: seq<CheckResult>) {
    |a| == |b| && forall i :: 0 <= i < |a| ==>
      a[i].entity == b[i].entity && a[i].name == b[i].name && a[i].kind == b[i].kind && a[i].expected == b[i].expected
  }

  lemma PartitionsExpect(lib: Library, entity: EntityRule, s: seq<Row>, c: seq<Row>, d: seq<Row>)
    requires PartitionResults(lib, entity, s, c).Some? && PartitionResults(lib, entity, s, d).Some?
    ensures SameExpected(PartitionResults(lib, entity, s, c).value, PartitionResults(lib, entity, s, d).value)
  {
  }

  lemma ChecksumsExpect(lib: Library, entity: EntityRule, s: seq<Row>, c: seq<Row>, d: seq<Row>, keys: seq<ColumnRule>)
    requires ChecksumResults(lib, entity, s, c, keys).Some? && ChecksumResults(lib, entity, s, d, keys).Some?
    ensures SameExpected(ChecksumResults(lib, entity, s, c, keys).value, ChecksumResults(lib, entity, s, d, keys).value)
  {
  }

  lemma AggregatesExpect(lib: Library, entity: EntityRule, s: seq<Row>, c: seq<Row>, d: seq<Row>)
    requires AggregateResults(lib, entity, s, c).Some? && AggregateResults(lib, entity, s, d).Some?
    ensures SameExpected(AggregateResults(lib, entity, s, c).value, AggregateResults(lib, entity, s, d).value)
  {
  }

  lemma HeadersExpect(entity: EntityRule, s: seq<Row>, c: seq<Row>, d: seq<Row>)
    ensures SameExpected([PresenceCheck(entity, s, c), CountCheck(entity, s, c)],
                         [PresenceCheck(entity, s, d), CountCheck(entity, s, d)])
  {
  }

  lemma DeletesExpect(lib: Library, entity: EntityRule, c: seq<Row>, d: seq<Row>, x: seq<Row>, y: seq<Row>,
                      keys: seq<ColumnRule>)
    requires DeleteCheck(lib, entity, c, x, keys).Some? && DeleteCheck(lib, entity, d, y, keys).Some?
    ensures SameExpected([DeleteCheck(lib, entity, c, x, keys).value], [DeleteCheck(lib, entity, d, y, keys).value])
  {
  }

  // Expected values come from the source rows alone.
  lemma SourceFixesExpected(lib: Library, entity: EntityRule, s: seq<Row>, c: seq<Row>, d: seq<Row>, x: seq<Row>,
                            y: seq<Row>)
    requires EntityChecks(lib, entity, s, c, x).Some? && EntityChecks(lib, entity, s, d, y).Some?
    ensures SameExpected(EntityChecks(lib, entity, s, c, x).value, EntityChecks(lib, entity, s, d, y).value)
  {
    var keys := Resolve(entity.columns, entity.keyColumns).value;
    PartitionsExpect(lib, entity, s, c, d);
    ChecksumsExpect(lib, entity, s, c, d, keys);
    AggregatesExpect(lib, entity, s, c, d);
    HeadersExpect(entity, s, c, d);
    if entity.readsDeletes { DeletesExpect(lib, entity, c, d, x, y, keys); }
    InOrderExpect(PresenceCheck(entity, s, c), PresenceCheck(entity, s, d), CountCheck(entity, s, c),
                  CountCheck(entity, s, d),
                  PartitionResults(lib, entity, s, c).value, PartitionResults(lib, entity, s, d).value,
                  if entity.readsDeletes then [DeleteCheck(lib, entity, c, x, keys).value] else [],
                  if entity.readsDeletes then [DeleteCheck(lib, entity, d, y, keys).value] else [],
                  ChecksumResults(lib, entity, s, c, keys).value, ChecksumResults(lib, entity, s, d, keys).value,
                  AggregateResults(lib, entity, s, c).value, AggregateResults(lib, entity, s, d).value);
  }

  lemma InOrderExpect(p: CheckResult, p': CheckResult, n: CheckResult, n': CheckResult,
                      q: seq<CheckResult>, q': seq<CheckResult>, d: seq<CheckResult>, d': seq<CheckResult>,
                      s: seq<CheckResult>, s': seq<CheckResult>, g: seq<CheckResult>, g': seq<CheckResult>)
    requires SameExpected([p, n], [p', n']) && SameExpected(q, q') && SameExpected(d, d') && SameExpected(s, s')
          && SameExpected(g, g')
    ensures SameExpected(InOrder(p, n, q, d, s, g), InOrder(p', n', q', d', s', g'))
  {
  }

  ghost predicate Unread(entity: EntityRule, checks: seq<CheckResult>) { checks == [QueryFailure(entity)] }

  ghost predicate OneSetOfTombstones(entities: seq<EntityRule>, batch: int, lives: seq<Readers>, t: nat, u: nat, n: nat)
    requires t < u < |lives| && n < |entities|
  {
    var a, b := Seen(entities, batch, lives, t, n).tombstones, Seen(entities, batch, lives, u, n).tombstones;
    entities[n].readsDeletes ==>
      && a.Some? && b.Some? && a.value(entities[n].name).Some?
      && a.value(entities[n].name) == b.value(entities[n].name)
  }

  /** However the source changes between reads, two targets of one compare run expect the
      same: for every entity their checks have equal names and expected values, and their
      candidates are held against the same tombstones, unless one of them could not read the
      entity at all. */
  lemma ExpectedNeverDiffers(lib: Library, entities: seq<EntityRule>, batch: int, lives: seq<Readers>, t: nat,
                            u: nat, n: nat)
    requires t < u < |lives| && n < |entities|
    ensures var a := Guarded(lib, entities[n], Seen(entities, batch, lives, t, n));
            var b := Guarded(lib, entities[n], Seen(entities, batch, lives, u, n));
            || Unread(entities[n], a) || Unread(entities[n], b)
            || (SameExpected(a, b) && OneSetOfTombstones(entities, batch, lives, t, u, n))
  {
    var e := entities[n];
    var r, q := Seen(entities, batch, lives, t, n), Seen(entities, batch, lives, u, n);
    if !Unread(e, Guarded(lib, e, r)) && !Unread(e, Guarded(lib, e, q)) {
      SameSource(entities, batch, lives, t, u, n);
      if e.readsDeletes { SameTombstones(entities, batch, lives, t, u, n); }
      SourceFixesExpected(lib, e, r.source(e.name).value, r.candidate(e.name).value, q.candidate(e.name).value,
                          DeletedKeys(e, r).value, DeletedKeys(e, q).value);
    }
  }

  lemma SignaturesStep(front: seq<CheckResult>, c: CheckResult)
    ensures Signatures(front + [c]) == Signatures(front)[(c.entity, c.name) := SignatureOf(c)]
  {
    assert (front + [c])[..|front|] == front;
  }

  lemma {:induction false} SignatureKeys(checks: seq<CheckResult>, k: (string, string))
    ensures k in Signatures(checks) <==> exists c :: c in checks && (c.entity, c.name) == k
  {
    if checks != [] {
      var front, last := checks[..|checks| - 1], checks[|checks| - 1];
      assert checks == front + [last];
      SignatureKeys(front, k);
      SignaturesStep(front, last);
    }
  }

  lemma KnownName(front: seq<CheckResult>, c: CheckResult)
    requires (c.entity, c.name) in Signatures(front)
    ensures |Signatures(front + [c])| == |Signatures(front)| && !UniqueNames(front + [c])
  {
    SignaturesStep(front, c);
    assert Signatures(front + [c]).Keys == Signatures(front).Keys;
    SignatureKeys(front, (c.entity, c.name));
    var i :| 0 <= i < |front| && (front[i].entity, front[i].name) == (c.entity, c.name);
    assert (front + [c])[i] == front[i] && (front + [c])[|front|] == c;
  }

  lemma NewName(front: seq<CheckResult>, c: CheckResult)
    requires (c.entity, c.name) !in Signatures(front)
    ensures |Signatures(front + [c])| == |Signatures(front)| + 1
    ensures UniqueNames(front + [c]) <==> UniqueNames(front)
  {
    SignaturesStep(front, c);
    assert Signatures(front + [c]).Keys == Signatures(front).Keys + {(c.entity, c.name)};
    SignatureKeys(front, (c.entity, c.name));
    if UniqueNames(front + [c]) {
      forall i, j | 0 <= i < j < |front| ensures (front[i].entity, front[i].name) != (front[j].entity, front[j].name) {
        assert (front + [c])[i] == front[i] && (front + [c])[j] == front[j];
      }
    }
  }

  /** A comparison holds as many checks as a report exactly when their names are unique. */
  lemma {:induction false} AsManyAsChecks(checks: seq<CheckResult>)
    ensures |Signatures(checks)| <= |checks|
    ensures |Signatures(checks)| == |checks| <==> UniqueNames(checks)
  {
    if checks != [] {
      var front, last := checks[..|checks| - 1], checks[|checks| - 1];
      assert checks == front + [last];
      AsManyAsChecks(front);
      if (last.entity, last.name) in Signatures(front) { KnownName(front, last); } else { NewName(front, last); }
    }
  }

  lemma BothPassed(a: seq<CheckResult>, b: seq<CheckResult>)
    requires AllPassed(a + b)
    ensures AllPassed(a) && AllPassed(b)
  {
    assert forall c :: c in a || c in b ==> c in a + b;
  }

  lemma {:induction false} TargetChecksCover(lib: Library, entities: seq<EntityRule>, batch: int,
                            lives: seq<Readers>, t: nat, n: nat, m: nat)
    requires t < |lives| && m < n <= |entities|
    requires AllPassed(TargetChecks(lib, entities, batch, lives, t, n))
    ensures AllPassed(Guarded(lib, entities[m], Seen(entities, batch, lives, t, m)))
  {
    BothPassed(TargetChecks(lib, entities, batch, lives, t, n - 1),
               Guarded(lib, entities[n - 1], Seen(entities, batch, lives, t, n - 1)));
    if m < n - 1 { TargetChecksCover(lib, entities, batch, lives, t, n - 1, m); }
  }

  lemma PassedIsReconciled(lib: Library, entity: EntityRule, readers: Readers)
    requires Framing.Faithful(lib) && entity.columns != [] && AllPassed(Guarded(lib, entity, readers))
    ensures GateTheorems.EntityReconciled(lib, entity, readers)
  {
    GateTheorems.FailureFails(entity);
    GateTheorems.EntityIsSound(lib, entity, readers.source(entity.name).value, readers.candidate(entity.name).value,
                  DeletedKeys(entity, readers).value);
  }

  // The candidate rows of a target.
  function Candidate(lives: seq<Readers>, t: nat, entity: EntityRule): Option<seq<Row>>
    requires t < |lives|
  {
    lives[t].candidate(entity.name)
  }

  /** When all reports of a compare run pass, the warehouses hold one canonical relation per
      entity, even if the source was changing all along. */
  lemma PassedTargetsHoldOneRelation(lib: Library, ctx: Context, entities: seq<EntityRule>, lives: seq<Readers>,
                            t: nat, u: nat, e: EntityRule)
    requires Framing.Faithful(lib) && t < u < |lives| && e in entities && e.columns != []
    requires TargetReport(lib, ctx, entities, lives, t).passed && TargetReport(lib, ctx, entities, lives, u).passed
    ensures Candidate(lives, t, e).Some? && Candidate(lives, u, e).Some?
    ensures Reconciliation.OneRelation(lib, Candidate(lives, t, e).value, Candidate(lives, u, e).value, e.columns)
  {
    var n :| 0 <= n < |entities| && entities[n] == e;
    TargetChecksCover(lib, entities, ctx.batch, lives, t, |entities|, n);
    TargetChecksCover(lib, entities, ctx.batch, lives, u, |entities|, n);
    PassedIsReconciled(lib, e, Seen(entities, ctx.batch, lives, t, n));
    PassedIsReconciled(lib, e, Seen(entities, ctx.batch, lives, u, n));
    SameSource(entities, ctx.batch, lives, t, u, n);
  }
}
