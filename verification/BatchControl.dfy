/** Which batches a source can be written under, and why an as-of reading of a closed batch
    does not move. */
module BatchControl {
  import opened Models
  import Json
  import opened SourceHistory
  import Agreement

  // The session is set to this batch and the batch is loading.
  ghost predicate LoadsUnder(s: Source, b: int) {
    s.setting == Setting.Batch(b) && b in s.batches && s.batches[b] == Loading
  }

  // ---- one statement ---------------------------------------------------------------------------

  /** An insert is accepted exactly for a new key, with the row stamped by the batch the session
      is set to, which is loading. */
  lemma InsertAcceptedExactlyWhen(s: Source, row: TableRow)
    ensures Mutate(s, Insert(row)).Some? <==> row.key !in s.table && LoadsUnder(s, row.batch)
  {
  }

  /** An update that hits a row is accepted exactly with the new row stamped by that batch. */
  lemma UpdateAcceptedExactlyWhen(s: Source, row: TableRow)
    requires row.key in s.table
    ensures Mutate(s, Update(row)).Some? <==> LoadsUnder(s, row.batch)
  {
  }

  /** A delete that hits a row is accepted exactly while the session is set to a loading batch,
      whatever batch the row carries. */
  lemma DeleteAcceptedExactlyWhen(s: Source, key: string)
    requires key in s.table
    ensures Mutate(s, Delete(key)).Some? <==> exists b :: LoadsUnder(s, b)
  {
    if s.setting.Batch? { assert LoadsUnder(s, s.setting.batch) || !LoadsUnder(s, s.setting.batch); }
  }

  /** An update or delete that hits no row is accepted whatever the session is set to, and does nothing. */
  lemma NoRowNoTrigger(s: Source, row: TableRow)
    requires row.key !in s.table
    ensures Mutate(s, Update(row)) == Some(s) && Mutate(s, Delete(row.key)) == Some(s)
  {
  }

  // Nothing recorded and nothing changed, or one history row under the loading batch of the session.
  ghost predicate WritesUnderLoading(s: Source, t: Source) {
    || (t.table == s.table && t.history == s.history && t.changes == s.changes && t.nextId == s.nextId)
    || exists h :: t.history == s.history + [h] && LoadsUnder(s, h.batch) && h.historyId == s.nextId
  }

  /** A command changes table, history or log only while the session's batch is loading, and what
      it adds to the history carries that batch. */
  lemma CommandsWriteUnderLoading(s: Source, c: Command)
    ensures WritesUnderLoading(s, Perform(s, c))
  {
    if c.Do? && Mutate(s, c.m).Some? && Mutate(s, c.m).value != s {
      var t := Perform(s, c);
      var h := t.history[|s.history|];
      assert t.history == s.history + [h] && LoadsUnder(s, h.batch);
    }
  }

  // ---- whole runs ------------------------------------------------------------------------------

  // No batch up to the cutoff is loading.
  ghost predicate Closed(s: Source, cutoff: int) {
    forall b :: b <= cutoff && b in s.batches ==> s.batches[b] != Loading
  }

  // From command `n` on, no batch up to the cutoff is ever loading.
  ghost predicate ClosedFrom(commands: seq<Command>, n: nat, cutoff: int)
    requires n <= |commands|
  {
    forall m :: n <= m < |commands| ==> Closed(Run(commands[..m]), cutoff)
  }

  // Whatever was recorded from command `n` to command `m` carries a later batch.
  ghost predicate OnlyLater(commands: seq<Command>, n: nat, m: nat, cutoff: int)
    requires n <= m <= |commands|
  {
    var before, now := Run(commands[..n]).history, Run(commands[..m]).history;
    before <= now && forall i :: |before| <= i < |now| ==> now[i].batch > cutoff
  }

  lemma OneMoreCommand(commands: seq<Command>, n: nat, m: nat, cutoff: int)
    requires n <= m < |commands| && OnlyLater(commands, n, m, cutoff) && Closed(Run(commands[..m]), cutoff)
    ensures OnlyLater(commands, n, m + 1, cutoff)
  {
    var s := Run(commands[..m]);
    RunStep(commands, m);
    CommandsWriteUnderLoading(s, commands[m]);
  }

  lemma {:induction false} LaterBatchesOnly(commands: seq<Command>, n: nat, m: nat, cutoff: int)
    requires n <= m <= |commands| && ClosedFrom(commands, n, cutoff)
    ensures OnlyLater(commands, n, m, cutoff)
    decreases m
  {
    if n < m {
      LaterBatchesOnly(commands, n, m - 1, cutoff);
      OneMoreCommand(commands, n, m - 1, cutoff);
    }
  }

  /** Once no batch up to the cutoff is loading any more, no statement whatever moves an as-of
      reading at the cutoff: neither its rows nor its tombstones. */
  lemma ClosedBatchesStand(commands: seq<Command>, n: nat, cutoff: int)
    requires n <= |commands| && ClosedFrom(commands, n, cutoff)
    ensures var before, now := Run(commands[..n]).history, Run(commands).history;
            && FetchRows(now, cutoff) == FetchRows(before, cutoff)
            && FetchDeletedKeys(now, cutoff) == FetchDeletedKeys(before, cutoff)
  {
    LaterBatchesOnly(commands, n, |commands|, cutoff);
    assert commands[..|commands|] == commands;
    var before, now := Run(commands[..n]).history, Run(commands).history;
    assert now == before + now[|before|..];
    Agreement.ClosedCutoffIsStable(before, now[|before|..], cutoff);
  }

  // ---- a batch that was closed too early ----------------------------------------------------------

  // A row is loaded under batch 1, the batch is completed, and another row is inserted under it.
  function LateRun(first: TableRow, late: TableRow): seq<Command> {
    [SetState(1, Loading), Configure(Setting.Batch(1)), Do(Insert(first)), SetState(1, Completed), Do(Insert(late))]
  }

  /** The trigger raises: nothing of the late insert is left, and batch 1 reads as before. */
  lemma LateInsertIsRejected(first: TableRow, late: TableRow)
    requires first.batch == 1 && late.batch == 1 && first.key != late.key
    ensures var before, after := Run(LateRun(first, late)[..4]), Run(LateRun(first, late));
            && first.key in before.table && Mutate(before, Insert(late)).None? && after == before
  {
    var all := LateRun(first, late);
    RunStep(all, 0);
    RunStep(all, 1);
    RunStep(all, 2);
    RunStep(all, 3);
    RunStep(all, 4);
    assert all[..0] == [] && all[..5] == all;
    InsertAcceptedExactlyWhen(Run(all[..2]), first);
    InsertAcceptedExactlyWhen(Run(all[..4]), late);
  }

  lemma RunStep(commands: seq<Command>, n: nat)
    requires n < |commands|
    ensures Run(commands[..n + 1]) == Perform(Run(commands[..n]), commands[n])
  {
    assert commands[..n + 1][..n] == commands[..n];
  }
}
