/** The values that the validation and publication code passes around:
    optional values, run contexts, check results, validation reports and the
    publication part of the reconciliation configuration. */
module Models {

  datatype Option<+T> = None | Some(value: T)

  // The identity of one pipeline run (src/millrace/contracts.py).
  type Batch = b: int | b >= 1 witness 1

  datatype Context = Context(runId: string, batch: Batch)

  // Everything a check stores in `expected` and `actual`.
  datatype CheckValue =
    | NoValue
    | CountValue(count: int)
    | PairValue(sourceRows: int, candidateRows: int)
    | DigestValue(digest: string)
    | GroupCounts(counts: map<string, int>)
    | GroupTexts(texts: map<string, string>)
    | KeyTuples(keys: set<seq<string>>)
    | Note(text: string)

  datatype CheckKind =
    PresenceKind | CountKind | PartitionCountKind | ChecksumKind | AggregateKind | DeleteKind | ErrorKind

  datatype CheckResult = CheckResult(
    entity: string, name: string, kind: CheckKind, passed: bool,
    expected: CheckValue, actual: CheckValue)

  datatype ValidationReport = ValidationReport(
    runId: string, batch: int, passed: bool, checks: seq<CheckResult>)

  // `view` is a dotted name; `relation` a template the run's candidate schema is rendered into.
  datatype PublicationRule = PublicationRule(view: string, relation: string, batchColumn: string)

  datatype PublicationConfig = PublicationConfig(
    analyticsSchema: string, publications: seq<PublicationRule>)

  // A published view selects one run's rows at one batch, or shows the publication log.
  datatype View =
    | CandidateView(relation: string, batchColumn: string, runId: string, batch: int)
    | StatusView

  // Snowflake is given its identifiers in upper case and DuckDB ignores their case, so one
  // relation has one spelling here; identifiers are ASCII.
  function ViewOf(p: PublicationRule, ctx: Context): View {
    CandidateView(Upper(p.relation), Upper(p.batchColumn), ctx.runId, ctx.batch)
  }

  function UpperChar(c: char): char {
    if 'a' <= c <= 'z' then (c as int - 32) as char else c
  }

  function Upper(s: string): (u: string)
    ensures |u| == |s|
  {
    if s == "" then "" else [UpperChar(s[0])] + Upper(s[1..])
  }

  function LowerChar(c: char): char {
    if 'A' <= c <= 'Z' then (c as int + 32) as char else c
  }

  function Lower(s: string): (l: string)
    ensures |l| == |s|
  {
    if s == "" then "" else [LowerChar(s[0])] + Lower(s[1..])
  }

  // The view selects from the publication's relation the rows of this batch, for this run.
  ghost predicate Selects(v: View, p: PublicationRule, ctx: Context) {
    && v.CandidateView?
    && v.relation == Upper(p.relation) && v.batchColumn == Upper(p.batchColumn)
    && v.runId == ctx.runId && v.batch == ctx.batch
  }

  lemma {:induction false} CasesAt(s: string, i: nat)
    requires i < |s|
    ensures Upper(s)[i] == UpperChar(s[i]) && Lower(s)[i] == LowerChar(s[i])
  {
    if i > 0 { CasesAt(s[1..], i - 1); }
  }

  /** Upper-casing leaves no lower-case letter, lower-casing no upper-case one, and both change
      nothing but the case: what one does the other undoes. */
  lemma CasesFold(s: string)
    ensures forall i :: 0 <= i < |s| ==> !('a' <= Upper(s)[i] <= 'z') && !('A' <= Lower(s)[i] <= 'Z')
    ensures Lower(Upper(s)) == Lower(s) && Upper(Lower(s)) == Upper(s)
  {
    forall i | 0 <= i < |s| ensures !('a' <= Upper(s)[i] <= 'z') && !('A' <= Lower(s)[i] <= 'Z') { CasesAt(s, i); }
    forall i | 0 <= i < |s| ensures Lower(Upper(s))[i] == Lower(s)[i] && Upper(Lower(s))[i] == Upper(s)[i] {
      FoldedAt(s, i);
    }
  }

  lemma CharCases(c: char)
    ensures !('a' <= UpperChar(c) <= 'z') && !('A' <= LowerChar(c) <= 'Z')
    ensures LowerChar(UpperChar(c)) == LowerChar(c) && UpperChar(LowerChar(c)) == UpperChar(c)
  {
  }

  lemma FoldedAt(s: string, i: nat)
    requires i < |s|
    ensures Lower(Upper(s))[i] == Lower(s)[i] && Upper(Lower(s))[i] == Upper(s)[i]
  {
    CasesAt(s, i);
    CasesAt(Upper(s), i);
    CasesAt(Lower(s), i);
    CharCases(s[i]);
  }

  /** Lower-case texts, digits and signs stay as they are under lower-casing. */
  lemma LowerKeeps(s: string)
    requires forall i :: 0 <= i < |s| ==> !('A' <= s[i] <= 'Z')
    ensures Lower(s) == s
  {
    forall i | 0 <= i < |s| ensures Lower(s)[i] == s[i] { CasesAt(s, i); }
  }

  type Schema = map<string, View>

  // One CREATE OR REPLACE VIEW per publication, in order, each under the name `nameOf` gives it.
  function PutViews(base: Schema, publications: seq<PublicationRule>, ctx: Context,
                    nameOf: PublicationRule -> string): Schema
    decreases |publications|
  {
    if publications == [] then base
    else PutViews(base[nameOf(publications[0]) := ViewOf(publications[0], ctx)], publications[1..], ctx, nameOf)
  }

  // Where the last publication stored under a name is, or -1.
  function LastUnder(publications: seq<PublicationRule>, nameOf: PublicationRule -> string, name: string): (i: int)
    ensures -1 <= i < |publications|
    ensures i >= 0 ==> nameOf(publications[i]) == name
    ensures forall j :: i < j < |publications| ==> nameOf(publications[j]) != name
  {
    if publications == [] then -1
    else
      var rest := LastUnder(publications[1..], nameOf, name);
      if rest >= 0 then rest + 1 else if nameOf(publications[0]) == name then 0 else -1
  }

  /** Afterwards a name shows the last publication stored under it, or what it showed before. */
  lemma {:induction false} PutViewsLookup(base: Schema, publications: seq<PublicationRule>, ctx: Context,
                                          nameOf: PublicationRule -> string, name: string)
    ensures var s, i := PutViews(base, publications, ctx, nameOf), LastUnder(publications, nameOf, name);
            if i >= 0 then name in s && s[name] == ViewOf(publications[i], ctx)
            else (name in s <==> name in base) && (name in base ==> s[name] == base[name])
    decreases |publications|
  {
    if publications != [] {
      PutViewsLookup(base[nameOf(publications[0]) := ViewOf(publications[0], ctx)], publications[1..], ctx, nameOf,
                     name);
    }
  }

  // One row of control.validation_runs, of which promotion reads these columns only.
  datatype AuditRow = AuditRow(runId: string, batch: int, passed: bool)

  /** The upsert both audit writers perform: every row of the run is replaced,
      and a row is appended when the run has none. */
  function Upsert(rows: seq<AuditRow>, row: AuditRow): seq<AuditRow> {
    if rows == [] then [row]
    else if rows[0].runId == row.runId then [row] + Replaced(rows[1..], row)
    else [rows[0]] + Upsert(rows[1..], row)
  }

  function Replaced(rows: seq<AuditRow>, row: AuditRow): seq<AuditRow> {
    if rows == [] then []
    else [if rows[0].runId == row.runId then row else rows[0]] + Replaced(rows[1..], row)
  }

  // `SELECT batch_id, status FROM validation_runs WHERE run_id = ?`, first row.
  function AuditOf(rows: seq<AuditRow>, runId: string): Option<AuditRow> {
    if rows == [] then None
    else if rows[0].runId == runId then Some(rows[0])
    else AuditOf(rows[1..], runId)
  }

  // Why a promotion is refused, and how a call to promote ends.
  datatype Reason = FailedReport | ForeignReport | NoAuditRow | NewerBatch | OtherBatch
  datatype Result = Refused(why: Reason) | Interrupted | Unchanged | Promoted

  // Gate 1 of both services, _validate_report.
  function ReportVerdict(ctx: Context, report: ValidationReport): Option<Reason> {
    if !report.passed then Some(FailedReport)
    else if report.runId != ctx.runId || report.batch != ctx.batch then Some(ForeignReport)
    else None
  }

  // What a caller can read off a report: it passed, and it is this run's at this batch.
  ghost predicate Matches(ctx: Context, report: ValidationReport) {
    report.passed && report.runId == ctx.runId && report.batch == ctx.batch
  }

  /** Gate 1 lets every matching report through, whatever its checks, and says of the others why not. */
  lemma ReportDecides(ctx: Context, report: ValidationReport)
    ensures ReportVerdict(ctx, report).None? <==> Matches(ctx, report)
    ensures ReportVerdict(ctx, report) == Some(FailedReport) <==> !report.passed
    ensures ReportVerdict(ctx, report) == Some(ForeignReport) <==> report.passed && !Matches(ctx, report)
  {
  }

  // Gate 2 of both services.
  predicate Authorised(rows: seq<AuditRow>, ctx: Context) {
    AuditOf(rows, ctx.runId) == Some(AuditRow(ctx.runId, ctx.batch, true))
  }

  /** After recording a row, reading its run gives that row and reading any
      other run gives what it gave before. */
  lemma {:induction false} UpsertThenRead(rows: seq<AuditRow>, row: AuditRow, runId: string)
    ensures AuditOf(Upsert(rows, row), runId)
         == if runId == row.runId then Some(row) else AuditOf(rows, runId)
  {
    if rows == [] {
    } else if rows[0].runId == row.runId {
      assert Upsert(rows, row)[1..] == Replaced(rows[1..], row);
      ReplacedKeepsOthers(rows[1..], row, runId);
    } else {
      UpsertThenRead(rows[1..], row, runId);
      assert Upsert(rows, row)[1..] == Upsert(rows[1..], row);
    }
  }

  /** Afterwards the run has the new row only, and the rows of other runs are those there were. */
  lemma {:induction false} UpsertRows(rows: seq<AuditRow>, row: AuditRow)
    ensures forall r :: r in Upsert(rows, row) <==> r == row || (r in rows && r.runId != row.runId)
  {
    if rows != [] {
      UpsertRows(rows[1..], row);
      ReplacedRows(rows[1..], row);
    }
  }

  lemma {:induction false} ReplacedRows(rows: seq<AuditRow>, row: AuditRow)
    ensures forall r | r in Replaced(rows, row) :: r == row || (r in rows && r.runId != row.runId)
    ensures forall r | r in rows && r.runId != row.runId :: r in Replaced(rows, row)
  {
    if rows != [] { ReplacedRows(rows[1..], row); }
  }

  lemma {:induction false} ReplacedKeepsOthers(rows: seq<AuditRow>, row: AuditRow, runId: string)
    ensures runId != row.runId ==> AuditOf(Replaced(rows, row), runId) == AuditOf(rows, runId)
  {
    if rows != [] {
      ReplacedKeepsOthers(rows[1..], row, runId);
      assert Replaced(rows, row)[1..] == Replaced(rows[1..], row);
    }
  }

  // What a name shows afterwards depends on the earlier views only if no publication has that name.
  lemma {:induction false} PutViewsForget(a: Schema, b: Schema, publications: seq<PublicationRule>, ctx: Context,
                                          nameOf: PublicationRule -> string, name: string)
    requires ((name in a <==> name in b) && (name in a ==> a[name] == b[name]))
             || exists p :: p in publications && nameOf(p) == name
    ensures var s, t := PutViews(a, publications, ctx, nameOf), PutViews(b, publications, ctx, nameOf);
            (name in s <==> name in t) && (name in s ==> s[name] == t[name])
    decreases |publications|
  {
    if publications != [] {
      var first := nameOf(publications[0]);
      PutViewsForget(a[first := ViewOf(publications[0], ctx)], b[first := ViewOf(publications[0], ctx)],
                     publications[1..], ctx, nameOf, name);
    }
  }

  lemma {:induction false} AuditOfIsARow(rows: seq<AuditRow>, runId: string)
    ensures AuditOf(rows, runId).Some? ==>
              AuditOf(rows, runId).value in rows && AuditOf(rows, runId).value.runId == runId
  {
    if rows != [] { AuditOfIsARow(rows[1..], runId); }
  }

  // ---- dotted names ------------------------------------------------------------------------------

  // name.rsplit(".", maxsplit=1)[-1]
  function LastPart(name: string): (part: string)
    ensures '.' !in part
  {
    if name == "" then ""
    else if name[|name| - 1] == '.' then ""
    else LastPart(name[..|name| - 1]) + [name[|name| - 1]]
  }

  // Texts with one beginning.
  lemma SameTail(p: string, x: string, y: string)
    ensures p + x == p + y <==> x == y
  {
    assert (p + x)[|p|..] == x && (p + y)[|p|..] == y;
  }

  // What precedes the first mark, and what follows it.
  lemma UpToMark(mark: char, a: string, b: string, x: string, y: string)
    requires mark !in a && mark !in b && a + [mark] + x == b + [mark] + y
    ensures a == b && x == y
  {
    var s, t := a + [mark] + x, b + [mark] + y;
    assert s[|a|] == mark && t[|b|] == mark;
    assert (forall i :: 0 <= i < |a| ==> s[i] == a[i]) && (forall i :: 0 <= i < |b| ==> t[i] == b[i]);
    assert s[..|a|] == a && t[..|b|] == b && s[|a| + 1..] == x && t[|b| + 1..] == y;
  }

  /** The last part is what follows the last dot, or the whole name when there is none. */
  lemma {:induction false} LastPartIs(prefix: string, part: string)
    requires '.' !in part
    ensures LastPart(prefix + "." + part) == part && LastPart(part) == part
  {
    if part != "" {
      var name, front := prefix + "." + part, part[..|part| - 1];
      assert name[..|name| - 1] == prefix + "." + front;
      LastPartIs(prefix, front);
      assert part == front + [part[|part| - 1]];
    }
  }
}
