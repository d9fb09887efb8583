/** Latest-wins reconstruction of table state from change events
    (src/millrace/streaming/state.py). The JSON text of a key and of an event's payload is
    a given part of the event; it is compared, never inspected. */
module CdcState {
  import opened Models
  import opened Orders
  import Json

  datatype Entity = Customers | Products | Orders | OrderItems

  function EntityName(e: Entity): string {
    match e
    case Customers => "customers"
    case Products => "products"
    case Orders => "orders"
    case OrderItems => "order_items"
  }

  datatype Operation = Create | Update | Delete | Read

  datatype CdcEvent = CdcEvent(
    entity: Entity, operation: Operation, key: Json.JsonObject, keyText: string,
    before: Option<Json.JsonObject>, after: Option<Json.JsonObject>, payloadText: string,
    batch: int, lsn: int, transactionOrder: int, topic: string, partition: int, offset: int)

  datatype SnapshotRecord = SnapshotRecord(
    entity: Entity, key: Json.JsonObject, keyText: string, row: Json.JsonObject, batch: int, lsn: int)

  // canonical_key
  function CanonicalKey(entity: Entity, keyText: string): string { EntityName(entity) + ":" + keyText }

  lemma SameEntityKeys(entity: Entity, a: string, b: string)
    ensures CanonicalKey(entity, a) == CanonicalKey(entity, b) ==> a == b
  {
    var p := EntityName(entity) + ":";
    assert (p + a)[|p|..] == a && (p + b)[|p|..] == b;
  }

  function KeyOf(e: CdcEvent): string { CanonicalKey(e.entity, e.keyText) }

  function RowOf(e: CdcEvent): Option<Json.JsonObject> { if e.operation.Delete? then e.before else e.after }

  // `_event_order(a) < _event_order(b)`
  predicate OrderBelow(a: CdcEvent, b: CdcEvent) {
    || a.lsn < b.lsn
    || (a.lsn == b.lsn
        && (|| a.transactionOrder < b.transactionOrder
            || (a.transactionOrder == b.transactionOrder
                && (|| a.partition < b.partition
                    || (a.partition == b.partition
                        && (|| a.offset < b.offset
                            || (a.offset == b.offset && TextBelow(a.payloadText, b.payloadText))))))))
  }

  ghost predicate SameOrder(a: CdcEvent, b: CdcEvent) { !OrderBelow(a, b) && !OrderBelow(b, a) }

  lemma OrderIsTotal(a: CdcEvent, b: CdcEvent, c: CdcEvent)
    ensures !OrderBelow(a, a)
    ensures OrderBelow(a, b) && OrderBelow(b, c) ==> OrderBelow(a, c)
    ensures !OrderBelow(b, a) && !OrderBelow(c, b) ==> !OrderBelow(c, a)
    ensures SameOrder(a, b) <==> (a.lsn == b.lsn && a.transactionOrder == b.transactionOrder
              && a.partition == b.partition && a.offset == b.offset && a.payloadText == b.payloadText)
  {
    TextTotal();
  }

  // The place of an event in the log: lsn, order in the transaction, partition, offset.
  function Place(e: CdcEvent): seq<int> { [e.lsn, e.transactionOrder, e.partition, e.offset] }

  /** An event is later exactly when, at the first component in which the places differ, it has
      the larger number, or at one place the larger payload text. */
  lemma OrderIsLexicographic(a: CdcEvent, b: CdcEvent)
    ensures OrderBelow(a, b)
       <==> || (exists n :: 0 <= n < 4 && Place(a)[..n] == Place(b)[..n] && Place(a)[n] < Place(b)[n])
            || (Place(a) == Place(b) && TextBelow(a.payloadText, b.payloadText))
  {
    var p, q := Place(a), Place(b);
    forall n | 0 <= n < 4
      ensures p[..n] == q[..n] <==> (n > 0 ==> p[0] == q[0]) && (n > 1 ==> p[1] == q[1]) && (n > 2 ==> p[2] == q[2])
    {
      SamePrefix(p, q, n);
    }
    if OrderBelow(a, b) && p != q {
      var n := if p[0] != q[0] then 0 else if p[1] != q[1] then 1 else if p[2] != q[2] then 2 else 3;
      assert p[..n] == q[..n] && p[n] < q[n];
    }
  }

  lemma SamePrefix(p: seq<int>, q: seq<int>, n: nat)
    requires |p| == |q| == 4 && n < 4
    ensures p[..n] == q[..n] <==> (n > 0 ==> p[0] == q[0]) && (n > 1 ==> p[1] == q[1]) && (n > 2 ==> p[2] == q[2])
  {
    if p[..n] == q[..n] {
      assert forall i :: 0 <= i < n ==> p[..n][i] == p[i] && q[..n][i] == q[i];
    }
  }

  lemma NamesDiffer(a: Entity, b: Entity)
    ensures EntityName(a) == EntityName(b) <==> a == b
    ensures ':' !in EntityName(a)
  {
    if a != b { assert |EntityName(a)| != |EntityName(b)|; }
  }

  /** Canonical keys tell entities and keys apart: no row of one table stands for a row of another. */
  lemma CanonicalKeyDecides(a: Entity, x: string, b: Entity, y: string)
    ensures CanonicalKey(a, x) == CanonicalKey(b, y) <==> a == b && x == y
  {
    NamesDiffer(a, b);
    NamesDiffer(b, a);
    if CanonicalKey(a, x) == CanonicalKey(b, y) { UpToMark(':', EntityName(a), EntityName(b), x, y); }
  }

  predicate Within(e: CdcEvent, cutoff: Option<int>) { cutoff.Some? ==> e.batch <= cutoff.value }

  // One turn of the loop in deduplicate_events.
  function Take(latest: map<string, CdcEvent>, e: CdcEvent, cutoff: Option<int>): map<string, CdcEvent> {
    if !Within(e, cutoff) then latest
    else if KeyOf(e) in latest && !OrderBelow(latest[KeyOf(e)], e) then latest
    else latest[KeyOf(e) := e]
  }

  function TakeAll(latest: map<string, CdcEvent>, events: seq<CdcEvent>, cutoff: Option<int>): map<string, CdcEvent> {
    if events == [] then latest
    else Take(TakeAll(latest, events[..|events| - 1], cutoff), events[|events| - 1], cutoff)
  }

  function Latest(events: seq<CdcEvent>, cutoff: Option<int>): map<string, CdcEvent> {
    TakeAll(map[], events, cutoff)
  }

  predicate Alive(e: CdcEvent) { !e.operation.Delete? && RowOf(e).Some? }

  function RecordOf(e: CdcEvent): SnapshotRecord
    requires Alive(e)
  {
    SnapshotRecord(e.entity, e.key, e.keyText, RowOf(e).value, e.batch, e.lsn)
  }

  // The state as a relation from canonical key to record.
  function CurrentState(events: seq<CdcEvent>, cutoff: Option<int>): map<string, SnapshotRecord> {
    var latest := Latest(events, cutoff);
    map k | k in latest && Alive(latest[k]) :: RecordOf(latest[k])
  }

  function EventKeys(events: seq<CdcEvent>): (keys: seq<string>)
    ensures |keys| == |events|
  {
    seq(|events|, i requires 0 <= i < |events| => KeyOf(events[i]))
  }

  function RecordKey(r: SnapshotRecord): string { CanonicalKey(r.entity, r.keyText) }

  function RecordKeys(records: seq<SnapshotRecord>): (keys: seq<string>)
    ensures |keys| == |records|
  {
    seq(|records|, i requires 0 <= i < |records| => RecordKey(records[i]))
  }

  // `out` lists the values of `latest` in ascending key order.
  ghost predicate Lists(out: seq<CdcEvent>, latest: map<string, CdcEvent>) {
    && Ascending(TextBelow, EventKeys(out))
    && (forall e :: e in out ==> KeyOf(e) in latest && latest[KeyOf(e)] == e)
    && (forall k :: k in latest ==> latest[k] in out)
  }

  // Each event is stored under its own key.
  ghost predicate Keyed(latest: map<string, CdcEvent>) {
    forall k :: k in latest ==> KeyOf(latest[k]) == k
  }

  lemma {:induction false} TakeAllKeyed(latest: map<string, CdcEvent>, events: seq<CdcEvent>, cutoff: Option<int>)
    requires Keyed(latest)
    ensures Keyed(TakeAll(latest, events, cutoff))
  {
    if events != [] { TakeAllKeyed(latest, events[..|events| - 1], cutoff); }
  }

  // ---- the two functions of the module, as the code runs them -------------------------------

  // `sorted(latest.values(), key=canonical_key)`
  method SortedValues(latest: map<string, CdcEvent>) returns (out: seq<CdcEvent>)
    requires Keyed(latest)
    ensures Lists(out, latest)
  {
    out := [];
    var left := latest.Keys;
    ghost var done: map<string, CdcEvent> := map[];
    while left != {}
      invariant left <= latest.Keys && done == latest - left
      invariant Lists(out, done)
      decreases left
    {
      var k :| k in left;
      out := Inserted(out, latest[k], done);
      left := left - {k};
      done := done[k := latest[k]];
    }
    assert done == latest;
  }

  method Inserted(out: seq<CdcEvent>, e: CdcEvent, ghost done: map<string, CdcEvent>) returns (more: seq<CdcEvent>)
    requires Lists(out, done) && KeyOf(e) !in done
    ensures Lists(more, done[KeyOf(e) := e])
  {
    var i := Position(out, KeyOf(e));
    InsertedAt(out, e, i, done);
    more := out[..i] + [e] + out[i..];
  }

  // The first place whose key is not below `k`.
  method Position(out: seq<CdcEvent>, k: string) returns (i: nat)
    ensures i <= |out| && forall j :: 0 <= j < i ==> TextBelow(KeyOf(out[j]), k)
    ensures i < |out| ==> !TextBelow(KeyOf(out[i]), k)
  {
    i := 0;
    while i < |out| && TextBelow(KeyOf(out[i]), k)
      invariant i <= |out| && forall j :: 0 <= j < i ==> TextBelow(KeyOf(out[j]), k)
    {
      i := i + 1;
    }
  }

  lemma InsertedAt(out: seq<CdcEvent>, e: CdcEvent, i: nat, done: map<string, CdcEvent>)
    requires Lists(out, done) && KeyOf(e) !in done && i <= |out|
    requires forall j :: 0 <= j < i ==> TextBelow(KeyOf(out[j]), KeyOf(e))
    requires i < |out| ==> !TextBelow(KeyOf(out[i]), KeyOf(e))
    ensures Lists(out[..i] + [e] + out[i..], done[KeyOf(e) := e])
  {
    if i < |out| { assert out[i] in out; }
    SplitAscending(EventKeys(out), KeyOf(e), i);
    KeysInserted(out, e, i);
    InsertedLists(out, e, i, done);
  }

  lemma KeysInserted(out: seq<CdcEvent>, e: CdcEvent, i: nat)
    requires i <= |out|
    ensures EventKeys(out[..i] + [e] + out[i..]) == EventKeys(out)[..i] + [KeyOf(e)] + EventKeys(out)[i..]
  {
  }

  lemma SplitAscending(keys: seq<string>, k: string, i: nat)
    requires Ascending(TextBelow, keys) && i <= |keys|
    requires forall j :: 0 <= j < i ==> TextBelow(keys[j], k)
    requires i < |keys| ==> !TextBelow(keys[i], k) && keys[i] != k
    ensures Ascending(TextBelow, keys[..i] + [k] + keys[i..])
  {
    TextTotal();
    forall j | i <= j < |keys| ensures TextBelow(k, keys[j]) {
      assert j > i ==> TextBelow(keys[i], keys[j]);
    }
  }

  lemma InsertedLists(out: seq<CdcEvent>, e: CdcEvent, i: nat, done: map<string, CdcEvent>)
    requires Lists(out, done) && KeyOf(e) !in done && i <= |out|
    requires Ascending(TextBelow, EventKeys(out[..i] + [e] + out[i..]))
    ensures Lists(out[..i] + [e] + out[i..], done[KeyOf(e) := e])
  {
    var more := out[..i] + [e] + out[i..];
    assert out == out[..i] + out[i..];
    assert forall x :: x in more <==> x == e || x in out;
  }

  method DeduplicateEvents(events: seq<CdcEvent>, cutoff: Option<int>) returns (out: seq<CdcEvent>)
    ensures Lists(out, Latest(events, cutoff))
  {
    var latest: map<string, CdcEvent> := map[];
    for i := 0 to |events|
      invariant latest == Latest(events[..i], cutoff)
    {
      var event := events[i];
      assert events[..i + 1][..i] == events[..i];
      if !Within(event, cutoff) { continue; }
      var storageKey := KeyOf(event);
      if storageKey !in latest || OrderBelow(latest[storageKey], event) {
        latest := latest[storageKey := event];
      }
    }
    assert events[..|events|] == events;
    TakeAllKeyed(map[], events, cutoff);
    out := SortedValues(latest);
  }

  function Records(events: seq<CdcEvent>): seq<SnapshotRecord> {
    if events == [] then []
    else
      var e := events[|events| - 1];
      Records(events[..|events| - 1]) + if Alive(e) then [RecordOf(e)] else []
  }

  method BuildCurrentState(events: seq<CdcEvent>, cutoff: Option<int>) returns (state: seq<SnapshotRecord>)
    ensures Ascending(TextBelow, RecordKeys(state))
    ensures forall r :: r in state ==> RecordKey(r) in CurrentState(events, cutoff)
                                       && CurrentState(events, cutoff)[RecordKey(r)] == r
    ensures forall k :: k in CurrentState(events, cutoff) ==> CurrentState(events, cutoff)[k] in state
  {
    state := [];
    var deduplicated := DeduplicateEvents(events, cutoff);
    for i := 0 to |deduplicated|
      invariant state == Records(deduplicated[..i])
    {
      var event := deduplicated[i];
      assert deduplicated[..i + 1][..i] == deduplicated[..i];
      if event.operation.Delete? { continue; }
      var row := RowOf(event);
      if row.None? { continue; }
      state := state + [SnapshotRecord(event.entity, event.key, event.keyText, row.value, event.batch, event.lsn)];
    }
    assert deduplicated[..|deduplicated|] == deduplicated;
    RecordsList(deduplicated);
    TakeAllKeyed(map[], events, cutoff);
  }

  lemma {:induction false} RecordsElements(events: seq<CdcEvent>)
    ensures forall r :: r in Records(events) ==> exists e :: e in events && Alive(e) && RecordOf(e) == r
    ensures forall e :: e in events && Alive(e) ==> RecordOf(e) in Records(events)
  {
    if events != [] {
      var front, e := events[..|events| - 1], events[|events| - 1];
      assert events == front + [e];
      RecordsElements(front);
    }
  }

  lemma RecordBelowLast(events: seq<CdcEvent>, r: SnapshotRecord)
    requires events != [] && Ascending(TextBelow, EventKeys(events))
    requires r in Records(events[..|events| - 1])
    ensures TextBelow(RecordKey(r), KeyOf(events[|events| - 1]))
  {
    var front := events[..|events| - 1];
    RecordsElements(front);
    var f :| f in front && Alive(f) && RecordOf(f) == r;
    var i :| 0 <= i < |front| && front[i] == f;
    assert EventKeys(events)[i] == KeyOf(f) && EventKeys(events)[|front|] == KeyOf(events[|front|]);
  }

  lemma {:induction false} RecordsAscending(events: seq<CdcEvent>)
    requires Ascending(TextBelow, EventKeys(events))
    ensures Ascending(TextBelow, RecordKeys(Records(events)))
  {
    if events != [] {
      var front, e := events[..|events| - 1], events[|events| - 1];
      assert EventKeys(front) == EventKeys(events)[..|front|];
      RecordsAscending(front);
      var rs := Records(front);
      if Alive(e) {
        forall r | r in rs ensures TextBelow(RecordKey(r), KeyOf(e)) { RecordBelowLast(events, r); }
        AppendAscending(rs, RecordOf(e));
        assert Records(events) == rs + [RecordOf(e)];
      } else {
        assert Records(events) == rs;
      }
    }
  }

  lemma AppendAscending(rs: seq<SnapshotRecord>, r: SnapshotRecord)
    requires Ascending(TextBelow, RecordKeys(rs))
    requires forall x :: x in rs ==> TextBelow(RecordKey(x), RecordKey(r))
    ensures Ascending(TextBelow, RecordKeys(rs + [r]))
  {
    assert RecordKeys(rs + [r]) == RecordKeys(rs) + [RecordKey(r)];
    forall k | k in RecordKeys(rs) ensures TextBelow(k, RecordKey(r)) {
      var i :| 0 <= i < |rs| && RecordKeys(rs)[i] == k;
      assert rs[i] in rs;
    }
  }

  lemma RecordsList(events: seq<CdcEvent>)
    requires Ascending(TextBelow, EventKeys(events))
    ensures Ascending(TextBelow, RecordKeys(Records(events)))
    ensures forall r :: r in Records(events) ==> exists e :: e in events && Alive(e) && RecordOf(e) == r
    ensures forall e :: e in events && Alive(e) ==> RecordOf(e) in Records(events)
  {
    RecordsAscending(events);
    RecordsElements(events);
  }
}
