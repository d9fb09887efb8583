/** The change stream and the captured history are two accounts of the same mutations. This
    module shows when they give the same table at every batch cutoff. */
module Agreement {
  import opened Models
  import Json
  import opened CdcState
  import opened CdcTheorems
  import H = SourceHistory

  // ---- what every run of the source keeps ---------------------------------------------------

  // The table row a change is about.
  function Subject(c: H.Change): H.TableRow
    requires c.before.Some? || c.after.Some?
  {
    if c.after.Some? then c.after.value else c.before.value
  }

  function OperationOf(c: H.Change): H.HistoryOperation {
    if c.after.None? then H.D else if c.before.None? then H.I else H.U
  }

  // The history row and the change at one position describe the same mutation.
  ghost predicate SameMutation(h: H.HistoryRow, c: H.Change) {
    && (c.before.Some? || c.after.Some?)
    && h.operation == OperationOf(c)
    && h.key == Subject(c).key && h.body == Subject(c).body
    && (c.after.Some? ==> h.batch == c.after.value.batch)
    && (c.before.Some? ==> c.before.value.key == h.key)
  }

  // Where the last history row of a key is among the first `n`, or -1.
  function LastOf(history: seq<H.HistoryRow>, n: nat, k: string): (i: int)
    requires n <= |history|
    ensures -1 <= i < n
    ensures i >= 0 ==> history[i].key == k
    ensures forall j :: i < j < n ==> history[j].key != k
  {
    if n == 0 then -1
    else if history[n - 1].key == k then n - 1
    else LastOf(history, n - 1, k)
  }

  // What the table held for a key after the first `n` mutations.
  function TableAt(s: H.Source, n: nat, k: string): Option<H.TableRow>
    requires n <= |s.history| == |s.changes|
  {
    var i := LastOf(s.history, n, k);
    if i < 0 then None else s.changes[i].after
  }

  ghost predicate Aligned(s: H.Source) {
    && |s.history| == |s.changes|
    && forall i :: 0 <= i < |s.history| ==> SameMutation(s.history[i], s.changes[i])
  }

  ghost predicate IdsGrow(s: H.Source) {
    && (forall i :: 0 <= i < |s.history| ==> s.history[i].historyId < s.nextId)
    && (forall i, j :: 0 <= i < j < |s.history| ==> s.history[i].historyId < s.history[j].historyId)
  }

  // Mutation `i` saw the row its predecessors left.
  ghost predicate SawAt(s: H.Source, i: nat)
    requires i < |s.history| == |s.changes|
  {
    s.changes[i].before == TableAt(s, i, s.history[i].key)
  }

  ghost predicate Befores(s: H.Source)
    requires |s.history| == |s.changes|
  {
    forall i :: 0 <= i < |s.history| ==> SawAt(s, i)
  }

  // The table holds what the recorded mutations leave of a key.
  ghost predicate MatchesAt(s: H.Source, k: string)
    requires |s.history| == |s.changes|
  {
    TableAt(s, |s.history|, k) == if k in s.table then Some(s.table[k]) else None
  }

  ghost predicate TableMatches(s: H.Source)
    requires |s.history| == |s.changes|
  {
    forall k :: MatchesAt(s, k)
  }

  ghost predicate Consistent(s: H.Source) {
    && Aligned(s) && IdsGrow(s) && Befores(s) && TableMatches(s)
    && forall k :: k in s.table ==> s.table[k].key == k
  }

  lemma {:induction false} LastOfPrefix(a: seq<H.HistoryRow>, b: seq<H.HistoryRow>, n: nat, k: string)
    requires n <= |a| <= |b| && a == b[..|a|]
    ensures LastOf(a, n, k) == LastOf(b, n, k)
  {
  }

  lemma TableAtPrefix(s: H.Source, t: H.Source, n: nat, k: string)
    requires n <= |s.history| == |s.changes| && |t.history| == |t.changes| == |s.history| + 1
    requires s.history == t.history[..|s.history|] && s.changes == t.changes[..|s.changes|]
    ensures TableAt(t, n, k) == TableAt(s, n, k)
  {
  }

  // The effect of a recorded mutation on the table.
  ghost predicate Effect(s: H.Source, h: H.HistoryRow, table: map<string, H.TableRow>, c: H.Change) {
    && SameMutation(h, c) && h.historyId == s.nextId
    && c.before == (if h.key in s.table then Some(s.table[h.key]) else None)
    && table == if c.after.Some? then s.table[h.key := c.after.value] else s.table - {h.key}
  }

  lemma RecordedBefores(s: H.Source, h: H.HistoryRow, table: map<string, H.TableRow>, c: H.Change)
    requires Aligned(s) && Befores(s) && TableMatches(s) && Effect(s, h, table, c)
    ensures Befores(H.Recorded(s, h, table, c))
  {
    var t, n := H.Recorded(s, h, table, c), |s.history|;
    forall i | 0 <= i <= n ensures SawAt(t, i) {
      TableAtPrefix(s, t, i, t.history[i].key);
      if i < n { assert SawAt(s, i); } else { assert MatchesAt(s, h.key); }
    }
  }

  lemma RecordedTableAt(s: H.Source, h: H.HistoryRow, table: map<string, H.TableRow>, c: H.Change, k: string)
    requires |s.history| == |s.changes| && Effect(s, h, table, c) && MatchesAt(s, k)
    ensures MatchesAt(H.Recorded(s, h, table, c), k)
  {
    var t, n := H.Recorded(s, h, table, c), |s.history|;
    LastOfPrefix(s.history, t.history, n, k);
    assert t.history[n] == h && t.changes[n] == c;
    var i := LastOf(s.history, n, k);
    if h.key != k && i >= 0 { assert t.changes[i] == s.changes[i]; }
  }

  lemma RecordedTable(s: H.Source, h: H.HistoryRow, table: map<string, H.TableRow>, c: H.Change)
    requires Aligned(s) && TableMatches(s) && Effect(s, h, table, c)
    ensures TableMatches(H.Recorded(s, h, table, c))
  {
    forall k ensures MatchesAt(H.Recorded(s, h, table, c), k) {
      RecordedTableAt(s, h, table, c, k);
    }
  }

  lemma RecordedConsistent(s: H.Source, h: H.HistoryRow, table: map<string, H.TableRow>, c: H.Change)
    requires Consistent(s) && Effect(s, h, table, c)
    ensures Consistent(H.Recorded(s, h, table, c))
  {
    RecordedBefores(s, h, table, c);
    RecordedTable(s, h, table, c);
  }

  lemma {:induction false} RunConsistent(commands: seq<H.Command>)
    ensures Consistent(H.Run(commands))
  {
    if commands != [] {
      var front, c := commands[..|commands| - 1], commands[|commands| - 1];
      RunConsistent(front);
      PerformConsistent(H.Run(front), c);
    }
  }

  lemma PerformConsistent(s: H.Source, c: H.Command)
    requires Consistent(s)
    ensures Consistent(H.Perform(s, c))
  {
    if c.Do? && H.Mutate(s, c.m).Some? {
      match c.m
      case Insert(row) =>
        RecordedConsistent(s, H.Capture(s, H.I, row).value, s.table[row.key := row], H.Change(None, Some(row)));
      case Update(row) =>
        if row.key in s.table {
          RecordedConsistent(s, H.Capture(s, H.U, row).value, s.table[row.key := row],
                             H.Change(Some(s.table[row.key]), Some(row)));
        }
      case Delete(key) =>
        if key in s.table {
          RecordedConsistent(s, H.Capture(s, H.D, s.table[key]).value, s.table - {key},
                             H.Change(Some(s.table[key]), None));
        }
    } else {
      TableUnread(s, H.Perform(s, c));
    }
  }

  // Settings and batch states play no part in consistency.
  lemma TableUnread(s: H.Source, t: H.Source)
    requires Consistent(s) && t.table == s.table && t.history == s.history
    requires t.changes == s.changes && t.nextId == s.nextId
    ensures Consistent(t)
  {
    forall i | 0 <= i < |t.history| ensures SawAt(t, i) { assert SawAt(s, i); }
    forall k ensures MatchesAt(t, k) { assert MatchesAt(s, k); }
  }

  // ---- the events Debezium emits and the parser reads ------------------------------------------

  // A row image: the columns with batch_id among them.
  function Image(r: H.TableRow): Json.JsonObject { r.body["batch_id" := Json.JInt(r.batch)] }

  function BodyOf(image: Json.JsonObject): H.Body { image - {"batch_id"} }

  function CdcOperation(c: H.Change): Operation {
    match OperationOf(c)
    case I => Create
    case U => Update
    case D => Delete
  }

  /** The event of a change. Its batch is the one in the row image the operation carries:
      the new image, or the old one for a delete (src/millrace/streaming/parser.py:77, :136). */
  ghost predicate EventFor(e: CdcEvent, c: H.Change, entity: Entity)
    requires c.before.Some? || c.after.Some?
  {
    && e.entity == entity && e.operation == CdcOperation(c)
    && e.keyText == Subject(c).key
    && (c.after.Some? ==> e.after == Some(Image(c.after.value)))
    && (c.before.Some? ==> e.before == Some(Image(c.before.value)))
    && e.batch == Subject(c).batch
  }

  // One event per change ...
  ghost predicate OnePerChange(events: seq<CdcEvent>, s: H.Source, entity: Entity) {
    && |events| == |s.changes|
    && (forall i :: 0 <= i < |events| ==>
          (s.changes[i].before.Some? || s.changes[i].after.Some?) && EventFor(events[i], s.changes[i], entity))
  }

  // ... ordered as the log orders them.
  ghost predicate InLogOrder(events: seq<CdcEvent>) {
    forall i, j :: 0 <= i < j < |events| ==> OrderBelow(events[i], events[j])
  }

  ghost predicate Emitted(events: seq<CdcEvent>, s: H.Source, entity: Entity) {
    OnePerChange(events, s, entity) && InLogOrder(events)
  }

  // Any order, any number of replays.
  ghost predicate Delivers(delivered: seq<CdcEvent>, events: seq<CdcEvent>) {
    forall e :: e in delivered <==> e in events
  }

  // Batches are loaded one after the other.
  ghost predicate Monotone(history: seq<H.HistoryRow>) {
    forall i, j :: 0 <= i < j < |history| ==> history[i].batch <= history[j].batch
  }

  // Mutation `i`, if a delete, removes a row stamped with the deleting batch.
  ghost predicate StampedAt(s: H.Source, i: nat)
    requires i < |s.history| == |s.changes|
  {
    s.changes[i].after.None? && s.changes[i].before.Some? ==> s.changes[i].before.value.batch == s.history[i].batch
  }

  ghost predicate DeletesAreStamped(s: H.Source)
    requires |s.history| == |s.changes|
  {
    forall i :: 0 <= i < |s.history| ==> StampedAt(s, i)
  }

  lemma LogOrderIdentifies(events: seq<CdcEvent>, delivered: seq<CdcEvent>)
    requires InLogOrder(events) && Delivers(delivered, events)
    ensures OrderIdentifies(delivered)
  {
  }

  // ---- the newest history row of a key ---------------------------------------------------------

  lemma {:induction false} NewestIsMaximal(history: seq<H.HistoryRow>, cutoff: int, k: string)
    ensures k in H.NewestRows(history, cutoff) <==> exists h :: h in history && h.key == k && h.batch <= cutoff
    ensures k in H.NewestRows(history, cutoff) ==>
              var n := H.NewestRows(history, cutoff)[k];
              && n in history && n.key == k && n.batch <= cutoff
              && forall h :: h in history && h.key == k && h.batch <= cutoff ==> !H.VersionBelow(n, h)
  {
    if history != [] {
      var front := history[..|history| - 1];
      assert history == front + [history[|history| - 1]];
      NewestIsMaximal(front, cutoff, k);
    }
  }

  // The last mutation of a key whose batch is within the cutoff, or -1.
  function LastWithin(history: seq<H.HistoryRow>, n: nat, cutoff: int, k: string): (i: int)
    requires n <= |history|
    ensures -1 <= i < n
    ensures i >= 0 ==> history[i].key == k && history[i].batch <= cutoff
    ensures forall j :: i < j < n ==> history[j].key != k || history[j].batch > cutoff
  {
    if n == 0 then -1
    else if history[n - 1].key == k && history[n - 1].batch <= cutoff then n - 1
    else LastWithin(history, n - 1, cutoff, k)
  }

  lemma NewestIsLast(s: H.Source, cutoff: int, k: string)
    requires IdsGrow(s) && Monotone(s.history)
    ensures var i := LastWithin(s.history, |s.history|, cutoff, k);
            var newest := H.NewestRows(s.history, cutoff);
            (k in newest <==> i >= 0) && (k in newest ==> newest[k] == s.history[i])
  {
    var i := LastWithin(s.history, |s.history|, cutoff, k);
    NewestIsMaximal(s.history, cutoff, k);
    if i >= 0 {
      assert s.history[i] in s.history;
      var n := H.NewestRows(s.history, cutoff)[k];
      var j :| 0 <= j < |s.history| && s.history[j] == n;
      assert j <= i;
    }
  }

  // ---- the winning event of a key -----------------------------------------------------------------

  // The last event of a key whose own batch is within the cutoff, or -1.
  function LastEvent(events: seq<CdcEvent>, n: nat, cutoff: int, k: string): (i: int)
    requires n <= |events|
    ensures -1 <= i < n
    ensures i >= 0 ==> events[i].keyText == k && events[i].batch <= cutoff
    ensures forall j :: i < j < n ==> events[j].keyText != k || events[j].batch > cutoff
  {
    if n == 0 then -1
    else if events[n - 1].keyText == k && events[n - 1].batch <= cutoff then n - 1
    else LastEvent(events, n - 1, cutoff, k)
  }

  lemma LogOrderAt(events: seq<CdcEvent>, i: nat, j: nat)
    requires InLogOrder(events) && j <= i < |events|
    ensures !OrderBelow(events[i], events[j])
  {
    OrderIsTotal(events[i], events[j], events[i]);
  }

  lemma LastCompetes(events: seq<CdcEvent>, entity: Entity, cutoff: int, j: nat, k: string)
    requires InLogOrder(events) && j < |events|
    requires events[j].entity == entity && KeyOf(events[j]) == CanonicalKey(entity, k) && events[j].batch <= cutoff
    ensures var i := LastEvent(events, |events|, cutoff, k);
            i >= 0 && !OrderBelow(events[i], events[j])
  {
    SameEntityKeys(entity, events[j].keyText, k);
    LogOrderAt(events, LastEvent(events, |events|, cutoff, k), j);
  }

  lemma NoneIsLater(events: seq<CdcEvent>, entity: Entity, delivered: seq<CdcEvent>, cutoff: int, k: string,
                    e: CdcEvent)
    requires InLogOrder(events) && Delivers(delivered, events) && forall e :: e in events ==> e.entity == entity
    requires Competes(e, delivered, Some(cutoff), CanonicalKey(entity, k))
    ensures var i := LastEvent(events, |events|, cutoff, k);
            i >= 0 && !OrderBelow(events[i], e)
  {
    var j :| 0 <= j < |events| && events[j] == e;
    LastCompetes(events, entity, cutoff, j, k);
  }

  lemma WinnerIsLast(events: seq<CdcEvent>, entity: Entity, delivered: seq<CdcEvent>, cutoff: int, k: string)
    requires InLogOrder(events) && Delivers(delivered, events) && forall e :: e in events ==> e.entity == entity
    ensures var i := LastEvent(events, |events|, cutoff, k);
            var latest := Latest(delivered, Some(cutoff));
            var key := CanonicalKey(entity, k);
            (key in latest <==> i >= 0) && (key in latest ==> latest[key] == events[i])
  {
    var i := LastEvent(events, |events|, cutoff, k);
    var key := CanonicalKey(entity, k);
    LogOrderIdentifies(events, delivered);
    LatestIsMaximal(delivered, Some(cutoff), key);
    forall e | Competes(e, delivered, Some(cutoff), key) ensures i >= 0 && !OrderBelow(events[i], e) {
      NoneIsLater(events, entity, delivered, cutoff, k, e);
    }
    if i >= 0 {
      LastIsCompetitor(events, entity, delivered, cutoff, k);
      WinnerIs(delivered, Some(cutoff), events[i]);
    }
  }

  lemma LastIsCompetitor(events: seq<CdcEvent>, entity: Entity, delivered: seq<CdcEvent>, cutoff: int, k: string)
    requires Delivers(delivered, events) && forall e :: e in events ==> e.entity == entity
    ensures var i := LastEvent(events, |events|, cutoff, k);
            i >= 0 ==> Competes(events[i], delivered, Some(cutoff), CanonicalKey(entity, k))
                       && KeyOf(events[i]) == CanonicalKey(entity, k)
  {
    var i := LastEvent(events, |events|, cutoff, k);
    if i >= 0 { assert events[i] in events; }
  }

  lemma OneEntity(events: seq<CdcEvent>, s: H.Source, entity: Entity)
    requires OnePerChange(events, s, entity)
    ensures forall e :: e in events ==> e.entity == entity
  {
  }

  // ---- agreement --------------------------------------------------------------------------------

  // One key of the reconstructed state reads as the history reader has it.
  ghost predicate AgreesOn(state: map<string, SnapshotRecord>, rows: map<string, H.Version>, entity: Entity,
                           k: string) {
    var key := CanonicalKey(entity, k);
    && (key in state <==> k in rows)
    && (key in state ==> BodyOf(state[key].row) == rows[k].body && state[key].batch == rows[k].batch)
  }

  ghost predicate Agree(delivered: seq<CdcEvent>, s: H.Source, entity: Entity, cutoff: int) {
    forall k :: AgreesOn(CurrentState(delivered, Some(cutoff)), H.FetchRows(s.history, cutoff), entity, k)
  }

  lemma EventBatches(events: seq<CdcEvent>, s: H.Source, entity: Entity, i: nat)
    requires Aligned(s) && OnePerChange(events, s, entity) && i < |events| && StampedAt(s, i)
    ensures events[i].batch == s.history[i].batch && events[i].keyText == s.history[i].key
  {
  }

  lemma {:induction false} SameLast(events: seq<CdcEvent>, s: H.Source, entity: Entity, n: nat, cutoff: int, k: string)
    requires Aligned(s) && OnePerChange(events, s, entity) && n <= |events| && DeletesAreStamped(s)
    ensures LastEvent(events, n, cutoff, k) == LastWithin(s.history, n, cutoff, k)
  {
    if n > 0 {
      assert StampedAt(s, n - 1);
      EventBatches(events, s, entity, n - 1);
      SameLast(events, s, entity, n - 1, cutoff, k);
    }
  }

  lemma BodyOfImage(r: H.TableRow)
    ensures BodyOf(Image(r)) == r.body
  {
  }

  lemma StampedAgrees(events: seq<CdcEvent>, s: H.Source, entity: Entity, delivered: seq<CdcEvent>, cutoff: int,
                      k: string)
    requires Consistent(s) && Monotone(s.history) && DeletesAreStamped(s)
    requires Emitted(events, s, entity) && Delivers(delivered, events)
    ensures AgreesOn(CurrentState(delivered, Some(cutoff)), H.FetchRows(s.history, cutoff), entity, k)
  {
    OneEntity(events, s, entity);
    WinnerIsLast(events, entity, delivered, cutoff, k);
    NewestIsLast(s, cutoff, k);
    SameLast(events, s, entity, |events|, cutoff, k);
    var i := LastWithin(s.history, |s.history|, cutoff, k);
    if i >= 0 {
      assert SameMutation(s.history[i], s.changes[i]) && StampedAt(s, i);
      BodyOfImage(Subject(s.changes[i]));
    }
  }

  // Who wrote the row that mutation `i` deletes, and when.
  lemma WriterOf(s: H.Source, i: nat)
    requires Aligned(s) && Befores(s) && i < |s.history| && s.changes[i].after.None?
    ensures var j := LastOf(s.history, i, s.history[i].key);
            && j >= 0 && s.changes[i].before == s.changes[j].after && s.changes[j].after.Some?
            && s.history[j].batch == s.changes[j].after.value.batch
  {
    assert SameMutation(s.history[i], s.changes[i]) && SawAt(s, i);
    var j := LastOf(s.history, i, s.history[i].key);
    assert SameMutation(s.history[j], s.changes[j]);
  }

  lemma LaterWritesAreNewer(events: seq<CdcEvent>, s: H.Source, entity: Entity, i: nat, m: nat)
    requires Aligned(s) && Befores(s) && Monotone(s.history) && OnePerChange(events, s, entity)
    requires i < m < |s.history| && s.changes[i].after.None? && s.history[m].key == s.history[i].key
    ensures events[m].batch >= s.history[i].batch
  {
    assert EventFor(events[m], s.changes[m], entity) && SameMutation(s.history[m], s.changes[m]);
    if s.changes[m].after.None? {
      WriterOf(s, m);
      var w := LastOf(s.history, m, s.history[m].key);
      assert w >= i;
    }
  }

  lemma DeleteWinsEarly(events: seq<CdcEvent>, s: H.Source, entity: Entity, i: nat)
    requires Aligned(s) && Befores(s) && Monotone(s.history) && OnePerChange(events, s, entity)
    requires i < |s.history| && !StampedAt(s, i)
    ensures var cutoff := s.changes[i].before.value.batch;
            cutoff < s.history[i].batch && LastEvent(events, |events|, cutoff, s.history[i].key) == i
  {
    var k, cutoff := s.history[i].key, s.changes[i].before.value.batch;
    WriterOf(s, i);
    assert s.history[LastOf(s.history, i, k)].batch <= s.history[i].batch;
    assert EventFor(events[i], s.changes[i], entity) && SameMutation(s.history[i], s.changes[i]);
    var l := LastEvent(events, |events|, cutoff, k);
    if l > i {
      assert EventFor(events[l], s.changes[l], entity) && SameMutation(s.history[l], s.changes[l]);
      LaterWritesAreNewer(events, s, entity, i, l);
    }
  }

  lemma WriterStillThere(s: H.Source, i: nat)
    requires Consistent(s) && Monotone(s.history) && i < |s.history| && !StampedAt(s, i)
    ensures s.history[i].key in H.FetchRows(s.history, s.changes[i].before.value.batch)
  {
    var k, cutoff := s.history[i].key, s.changes[i].before.value.batch;
    WriterOf(s, i);
    NewestIsLast(s, cutoff, k);
    var j := LastOf(s.history, i, k);
    assert s.history[j].batch <= s.history[i].batch;
    assert LastWithin(s.history, |s.history|, cutoff, k) == j;
    assert SameMutation(s.history[j], s.changes[j]);
  }

  /** A delete whose row still carries an earlier batch: as of that batch the change stream
      has already lost the row, while the history still shows it. */
  lemma UnstampedDisagrees(events: seq<CdcEvent>, s: H.Source, entity: Entity, delivered: seq<CdcEvent>, i: nat)
    requires Consistent(s) && Monotone(s.history)
    requires Emitted(events, s, entity) && Delivers(delivered, events)
    requires i < |s.history| && !StampedAt(s, i)
    ensures var cutoff := s.changes[i].before.value.batch;
            && CanonicalKey(entity, s.history[i].key) !in CurrentState(delivered, Some(cutoff))
            && s.history[i].key in H.FetchRows(s.history, cutoff)
  {
    DeleteWinsEarly(events, s, entity, i);
    OneEntity(events, s, entity);
    WinnerIsLast(events, entity, delivered, s.changes[i].before.value.batch, s.history[i].key);
    assert EventFor(events[i], s.changes[i], entity);
    WriterStillThere(s, i);
  }

  /** For every run with batches loaded one after the other, and for every delivery of its
      events: the reconstructed state equals the as-of reading of the history at every cutoff
      if and only if every delete removed a row stamped with the deleting batch. When the
      events carry positive batches, as parsed ones do, the positive cutoffs, which are those
      a run can have, already decide it. */
  lemma CdcAgreesWithHistoryExactlyWhenStamped(commands: seq<H.Command>, entity: Entity,
                                               events: seq<CdcEvent>, delivered: seq<CdcEvent>)
    requires Monotone(H.Run(commands).history)
    requires Emitted(events, H.Run(commands), entity) && Delivers(delivered, events)
    ensures |H.Run(commands).history| == |H.Run(commands).changes|
    ensures (forall cutoff :: Agree(delivered, H.Run(commands), entity, cutoff)) <==> DeletesAreStamped(H.Run(commands))
    ensures (forall e :: e in events ==> e.batch >= 1) ==>
              ((forall cutoff: Batch :: Agree(delivered, H.Run(commands), entity, cutoff))
               <==> DeletesAreStamped(H.Run(commands)))
  {
    var s := H.Run(commands);
    RunConsistent(commands);
    if DeletesAreStamped(s) {
      forall cutoff, k
        ensures AgreesOn(CurrentState(delivered, Some(cutoff)), H.FetchRows(s.history, cutoff), entity, k)
      {
        StampedAgrees(events, s, entity, delivered, cutoff, k);
      }
    } else {
      var cutoff := DisagreeingCutoff(events, s, entity, delivered);
    }
  }

  lemma DisagreeingCutoff(events: seq<CdcEvent>, s: H.Source, entity: Entity, delivered: seq<CdcEvent>)
    returns (cutoff: int)
    requires Consistent(s) && Monotone(s.history) && !DeletesAreStamped(s)
    requires Emitted(events, s, entity) && Delivers(delivered, events)
    ensures !Agree(delivered, s, entity, cutoff)
    ensures (forall e :: e in events ==> e.batch >= 1) ==> cutoff >= 1
  {
    var i :| 0 <= i < |s.history| && !StampedAt(s, i);
    cutoff := s.changes[i].before.value.batch;
    UnstampedDisagrees(events, s, entity, delivered, i);
    assert !AgreesOn(CurrentState(delivered, Some(cutoff)), H.FetchRows(s.history, cutoff), entity, s.history[i].key);
    assert EventFor(events[i], s.changes[i], entity) && events[i] in events;
  }

  /** The tombstone reader then returns exactly the keys the change stream touched by the
      cutoff and no longer holds. */
  lemma TombstonesAreTheMissingKeys(commands: seq<H.Command>, entity: Entity,
                                    events: seq<CdcEvent>, delivered: seq<CdcEvent>, cutoff: int, k: string)
    requires Monotone(H.Run(commands).history) && |H.Run(commands).history| == |H.Run(commands).changes|
    requires DeletesAreStamped(H.Run(commands))
    requires Emitted(events, H.Run(commands), entity) && Delivers(delivered, events)
    ensures k in H.FetchDeletedKeys(H.Run(commands).history, cutoff)
            <==> && (exists e :: e in delivered && e.keyText == k && e.batch <= cutoff)
                 && CanonicalKey(entity, k) !in CurrentState(delivered, Some(cutoff))
  {
    var s := H.Run(commands);
    RunConsistent(commands);
    StampedAgrees(events, s, entity, delivered, cutoff, k);
    OneEntity(events, s, entity);
    WinnerIsLast(events, entity, delivered, cutoff, k);
    NewestIsLast(s, cutoff, k);
    SameLast(events, s, entity, |events|, cutoff, k);
    var i := LastEvent(events, |events|, cutoff, k);
    if i >= 0 { assert events[i] in delivered; }
    if e :| e in delivered && e.keyText == k && e.batch <= cutoff {
      var j :| 0 <= j < |events| && events[j] == e;
      assert i >= j;
    }
  }

  /** Once batches above the cutoff are being loaded, the as-of reading no longer moves. */
  lemma {:induction false} ClosedCutoffIsStable(history: seq<H.HistoryRow>, more: seq<H.HistoryRow>, cutoff: int)
    requires forall h :: h in more ==> h.batch > cutoff
    ensures H.NewestRows(history + more, cutoff) == H.NewestRows(history, cutoff)
  {
    if more == [] {
      assert history + more == history;
    } else {
      assert (history + more)[..|history + more| - 1] == history + more[..|more| - 1];
      ClosedCutoffIsStable(history, more[..|more| - 1], cutoff);
    }
  }

  /** History only grows, and history ids grow with it. */
  lemma HistoryIsAppendOnly(commands: seq<H.Command>, c: H.Command)
    ensures H.Run(commands).history <= H.Run(commands + [c]).history
    ensures IdsGrow(H.Run(commands))
  {
    assert (commands + [c])[..|commands|] == commands;
    RunConsistent(commands);
  }
}
