/** When deletes are stamped: a condition on the statements run, the seed's way of keeping
    it, and a run that breaks it. */
module Discipline {
  import opened Models
  import opened CdcState
  import opened Agreement
  import H = SourceHistory

  // Statement `n`, if it deletes a row, deletes one that carries the active batch.
  ghost predicate DisciplinedAt(commands: seq<H.Command>, n: nat)
    requires n < |commands|
  {
    commands[n].Do? && commands[n].m.Delete? ==>
      var s := H.Run(commands[..n]);
      var key := commands[n].m.key;
      key in s.table && H.ActiveBatch(s).Some? ==> s.table[key].batch == H.ActiveBatch(s).value
  }

  ghost predicate Disciplined(commands: seq<H.Command>) {
    forall n :: 0 <= n < |commands| ==> DisciplinedAt(commands, n)
  }

  // The statement's own part in it.
  ghost predicate Stamps(s: H.Source, c: H.Command) {
    c.Do? && c.m.Delete? && c.m.key in s.table && H.ActiveBatch(s).Some? ==>
      s.table[c.m.key].batch == H.ActiveBatch(s).value
  }

  // A statement either records nothing, or one mutation.
  ghost predicate Recording(s: H.Source, t: H.Source, stamps: bool) {
    || (t.history == s.history && t.changes == s.changes && stamps)
    || (&& |t.history| == |t.changes| == |s.history| + 1
        && |s.history| == |s.changes|
        && t.history[..|s.history|] == s.history && t.changes[..|s.changes|] == s.changes
        && (StampedAt(t, |s.history|) <==> stamps))
  }

  lemma PerformRecords(s: H.Source, c: H.Command)
    requires |s.history| == |s.changes|
    ensures Recording(s, H.Perform(s, c), Stamps(s, c))
  {
  }

  lemma PerformStamps(s: H.Source, c: H.Command)
    requires Consistent(s)
    ensures |H.Perform(s, c).history| == |H.Perform(s, c).changes|
    ensures DeletesAreStamped(H.Perform(s, c)) <==> DeletesAreStamped(s) && Stamps(s, c)
  {
    PerformRecords(s, c);
    var t := H.Perform(s, c);
    if |t.history| == |s.history| { StampedUnread(s, t); } else { StampedSplit(s, t); }
  }

  lemma StampedUnread(s: H.Source, t: H.Source)
    requires |s.history| == |s.changes| && t.history == s.history && t.changes == s.changes
    ensures DeletesAreStamped(t) <==> DeletesAreStamped(s)
  {
    forall i | 0 <= i < |s.history| ensures StampedAt(s, i) <==> StampedAt(t, i) {}
  }

  lemma StampedSplit(s: H.Source, t: H.Source)
    requires |s.history| == |s.changes| && |t.history| == |t.changes| == |s.history| + 1
    requires t.history[..|s.history|] == s.history && t.changes[..|s.changes|] == s.changes
    ensures DeletesAreStamped(t) <==> DeletesAreStamped(s) && StampedAt(t, |s.history|)
  {
    forall i | 0 <= i < |s.history| ensures StampedAt(s, i) <==> StampedAt(t, i) {
      assert t.history[..|s.history|][i] == t.history[i] && t.changes[..|s.changes|][i] == t.changes[i];
    }
  }

  /** Every delete is stamped exactly when every DELETE statement that hits a row hits one
      already carrying the active batch. */
  lemma {:induction false} StampedExactlyWhenDisciplined(commands: seq<H.Command>)
    ensures |H.Run(commands).history| == |H.Run(commands).changes|
    ensures DeletesAreStamped(H.Run(commands)) <==> Disciplined(commands)
  {
    if commands != [] {
      var n := |commands| - 1;
      StampedExactlyWhenDisciplined(commands[..n]);
      RunConsistent(commands[..n]);
      PerformStamps(H.Run(commands[..n]), commands[n]);
      DisciplinedStep(commands);
    }
  }

  lemma DisciplinedStep(commands: seq<H.Command>)
    requires commands != []
    ensures var n := |commands| - 1;
            Disciplined(commands) <==> Disciplined(commands[..n]) && Stamps(H.Run(commands[..n]), commands[n])
  {
    var n := |commands| - 1;
    var front := commands[..n];
    assert DisciplinedAt(commands, n) <==> Stamps(H.Run(front), commands[n]);
    forall m | 0 <= m < n ensures DisciplinedAt(commands, m) <==> DisciplinedAt(front, m) {
      assert front[..m] == commands[..m];
    }
  }

  lemma RunTwo(commands: seq<H.Command>, a: H.Command, b: H.Command)
    ensures H.Run(commands + [a, b]) == H.Perform(H.Perform(H.Run(commands), a), b)
    ensures H.Run((commands + [a, b])[..|commands| + 1]) == H.Perform(H.Run(commands), a)
  {
    var all := commands + [a, b];
    assert all[..|all| - 1] == commands + [a] && (commands + [a])[..|commands|] == commands;
  }

  /** Stamping a row with the active batch and then deleting it, as the seed does, keeps the
      discipline. */
  lemma StampThenDelete(commands: seq<H.Command>, row: H.TableRow)
    requires Disciplined(commands) && row.key in H.Run(commands).table
    requires H.ActiveBatch(H.Run(commands)) == Some(row.batch)
    ensures Disciplined(commands + [H.Do(H.Update(row)), H.Do(H.Delete(row.key))])
    ensures row.key !in H.Run(commands + [H.Do(H.Update(row)), H.Do(H.Delete(row.key))]).table
  {
    var all := commands + [H.Do(H.Update(row)), H.Do(H.Delete(row.key))];
    RunTwo(commands, H.Do(H.Update(row)), H.Do(H.Delete(row.key)));
    forall n | 0 <= n < |all| ensures DisciplinedAt(all, n) {
      if n < |commands| {
        assert all[..n] == commands[..n] && all[n] == commands[n];
        assert DisciplinedAt(commands, n);
      }
    }
  }

  // One row inserted in batch 1 and deleted, unstamped, in batch 2.
  function UnstampedRun(row: H.TableRow): seq<H.Command> {
    [H.SetState(1, H.Loading), H.Configure(H.Batch(1)), H.Do(H.Insert(row)),
     H.SetState(1, H.Completed), H.SetState(2, H.Loading), H.Configure(H.Batch(2)), H.Do(H.Delete(row.key))]
  }

  lemma RunOne(commands: seq<H.Command>, c: H.Command)
    ensures H.Run(commands + [c]) == H.Perform(H.Run(commands), c)
  {
  }

  lemma RunSeven(a: H.Command, b: H.Command, c: H.Command, d: H.Command, e: H.Command, f: H.Command, g: H.Command)
    ensures H.Run([a, b, c, d, e, f, g])
         == H.Perform(H.Perform(H.Perform(H.Perform(H.Perform(H.Perform(H.Perform(H.EMPTY, a), b), c), d), e), f), g)
  {
    assert [a] == [] + [a] && [a, b] == [a] + [b] && [a, b, c] == [a, b] + [c] && [a, b, c, d] == [a, b, c] + [d];
    assert [a, b, c, d, e] == [a, b, c, d] + [e] && [a, b, c, d, e, f] == [a, b, c, d, e] + [f];
    assert [a, b, c, d, e, f, g] == [a, b, c, d, e, f] + [g];
    RunOne([], a);
    RunOne([a], b);
    RunOne([a, b], c);
    RunOne([a, b, c], d);
    RunOne([a, b, c, d], e);
    RunOne([a, b, c, d, e], f);
    RunOne([a, b, c, d, e, f], g);
  }

  lemma UnstampedState(row: H.TableRow)
    requires row.batch == 1
    ensures var s := H.Run(UnstampedRun(row));
            && s.history == [H.HistoryRow(1, H.I, 1, row.key, row.body), H.HistoryRow(2, H.D, 2, row.key, row.body)]
            && s.changes == [H.Change(None, Some(row)), H.Change(Some(row), None)]
  {
    var inserted := H.Source(H.Batch(1), map[1 := H.Loading], map[row.key := row],
                             [H.HistoryRow(1, H.I, 1, row.key, row.body)], 2, [H.Change(None, Some(row))]);
    var loading := H.Perform(H.Perform(H.EMPTY, H.SetState(1, H.Loading)), H.Configure(H.Batch(1)));
    assert loading == H.EMPTY.(setting := H.Batch(1), batches := map[1 := H.Loading]);
    assert H.Perform(loading, H.Do(H.Insert(row))) == inserted;
    var next := H.Perform(H.Perform(H.Perform(inserted, H.SetState(1, H.Completed)), H.SetState(2, H.Loading)),
                          H.Configure(H.Batch(2)));
    assert next == inserted.(setting := H.Batch(2), batches := next.batches) && next.batches[2] == H.Loading;
    assert H.ActiveBatch(next) == Some(2);
    RunSeven(H.SetState(1, H.Loading), H.Configure(H.Batch(1)), H.Do(H.Insert(row)),
             H.SetState(1, H.Completed), H.SetState(2, H.Loading), H.Configure(H.Batch(2)), H.Do(H.Delete(row.key)));
  }

  /** The counterexample: the triggers accept this run, its batches are loaded in order, yet
      as of batch 1 the change stream has lost a row the history shows. */
  lemma UnstampedRunDisagrees(row: H.TableRow, entity: Entity, events: seq<CdcEvent>, delivered: seq<CdcEvent>)
    requires row.batch == 1
    requires Emitted(events, H.Run(UnstampedRun(row)), entity) && Delivers(delivered, events)
    ensures Monotone(H.Run(UnstampedRun(row)).history)
    ensures row.key in H.FetchRows(H.Run(UnstampedRun(row)).history, 1)
    ensures CanonicalKey(entity, row.key) !in CurrentState(delivered, Some(1))
  {
    var s := H.Run(UnstampedRun(row));
    UnstampedState(row);
    RunConsistent(UnstampedRun(row));
    assert !StampedAt(s, 1);
    UnstampedDisagrees(events, s, entity, delivered, 1);
    WriterStillThere(s, 1);
  }
}
