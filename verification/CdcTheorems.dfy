/** Latest-wins reconstruction does not depend on delivery order or on replays, can be
    done in increments, and equals applying the events one by one. */
module CdcTheorems {
  import opened Models
  import opened Orders
  import opened CdcState

  // The candidates for one key.
  ghost predicate Competes(e: CdcEvent, events: seq<CdcEvent>, cutoff: Option<int>, k: string) {
    e in events && Within(e, cutoff) && KeyOf(e) == k
  }

  /** The winner of a key is a candidate no other candidate is ordered after, and a key has
      a winner exactly when it has a candidate. */
  lemma {:induction false} LatestIsMaximal(events: seq<CdcEvent>, cutoff: Option<int>, k: string)
    ensures k in Latest(events, cutoff) <==> exists e :: Competes(e, events, cutoff, k)
    ensures k in Latest(events, cutoff) ==>
              && Competes(Latest(events, cutoff)[k], events, cutoff, k)
              && forall e :: Competes(e, events, cutoff, k) ==> !OrderBelow(Latest(events, cutoff)[k], e)
  {
    if events != [] {
      var front, e := events[..|events| - 1], events[|events| - 1];
      assert events == front + [e];
      LatestIsMaximal(front, cutoff, k);
      assert forall x :: Competes(x, events, cutoff, k)
                         <==> Competes(x, front, cutoff, k) || (x == e && Within(e, cutoff) && KeyOf(e) == k);
      var before := Latest(front, cutoff);
      if k in before && KeyOf(e) == k {
        forall x | Competes(x, front, cutoff, k)
          ensures !OrderBelow(before[k], x) && (OrderBelow(before[k], e) ==> !OrderBelow(e, x))
        {
          OrderIsTotal(x, before[k], e);
          OrderIsTotal(before[k], e, x);
        }
      }
      OrderIsTotal(e, e, e);
    }
  }

  // Events of one key that are ordered alike are the same event.
  ghost predicate OrderIdentifies(events: seq<CdcEvent>) {
    forall a, b :: a in events && b in events && KeyOf(a) == KeyOf(b) && SameOrder(a, b) ==> a == b
  }

  lemma WinnerIs(events: seq<CdcEvent>, cutoff: Option<int>, e: CdcEvent)
    requires OrderIdentifies(events) && Competes(e, events, cutoff, KeyOf(e))
    requires forall x :: Competes(x, events, cutoff, KeyOf(e)) ==> !OrderBelow(e, x)
    ensures KeyOf(e) in Latest(events, cutoff) && Latest(events, cutoff)[KeyOf(e)] == e
  {
    LatestIsMaximal(events, cutoff, KeyOf(e));
    assert Competes(e, events, cutoff, KeyOf(e));
    assert SameOrder(e, Latest(events, cutoff)[KeyOf(e)]);
  }

  /** The same events in any order, with any of them delivered again any number of times,
      give the same winners and the same state. */
  lemma DeliveryDoesNotMatter(a: seq<CdcEvent>, b: seq<CdcEvent>, cutoff: Option<int>)
    requires OrderIdentifies(a)
    requires forall e :: Within(e, cutoff) ==> (e in a <==> e in b)
    ensures Latest(a, cutoff) == Latest(b, cutoff)
    ensures CurrentState(a, cutoff) == CurrentState(b, cutoff)
  {
    var la, lb := Latest(a, cutoff), Latest(b, cutoff);
    forall k ensures (k in la <==> k in lb) && (k in la ==> la[k] == lb[k]) {
      LatestIsMaximal(a, cutoff, k);
      LatestIsMaximal(b, cutoff, k);
      assert forall e :: Competes(e, a, cutoff, k) <==> Competes(e, b, cutoff, k);
      if k in la {
        assert Competes(lb[k], a, cutoff, k) && Competes(la[k], b, cutoff, k);
        assert SameOrder(la[k], lb[k]);
      }
    }
    assert la == lb;
  }

  /** Without that assumption two deliveries still pick events of equal order. */
  lemma WinnersOrderedAlike(a: seq<CdcEvent>, b: seq<CdcEvent>, cutoff: Option<int>, k: string)
    requires forall e :: Within(e, cutoff) ==> (e in a <==> e in b)
    ensures k in Latest(a, cutoff) <==> k in Latest(b, cutoff)
    ensures k in Latest(a, cutoff) ==> SameOrder(Latest(a, cutoff)[k], Latest(b, cutoff)[k])
  {
    LatestIsMaximal(a, cutoff, k);
    LatestIsMaximal(b, cutoff, k);
    assert forall e :: Competes(e, a, cutoff, k) <==> Competes(e, b, cutoff, k);
  }

  // ---- increments -----------------------------------------------------------------------

  lemma {:induction false} TakeAllSplit(latest: map<string, CdcEvent>, a: seq<CdcEvent>, b: seq<CdcEvent>,
                            cutoff: Option<int>)
    ensures TakeAll(latest, a + b, cutoff) == TakeAll(TakeAll(latest, a, cutoff), b, cutoff)
  {
    if b == [] {
      assert a + b == a;
    } else {
      assert (a + b)[..|a + b| - 1] == a + b[..|b| - 1];
      TakeAllSplit(latest, a, b[..|b| - 1], cutoff);
    }
  }

  lemma OneEventPerKey(out: seq<CdcEvent>, a: CdcEvent, b: CdcEvent)
    requires Ascending(TextBelow, EventKeys(out)) && a in out && b in out && KeyOf(a) == KeyOf(b)
    ensures a == b
  {
    TextTotal();
    var i :| 0 <= i < |out| && out[i] == a;
    var j :| 0 <= j < |out| && out[j] == b;
    assert EventKeys(out)[i] == EventKeys(out)[j];
  }

  lemma DeduplicatedLatest(a: seq<CdcEvent>, out: seq<CdcEvent>, cutoff: Option<int>)
    requires Lists(out, Latest(a, cutoff))
    ensures Latest(out, cutoff) == Latest(a, cutoff)
  {
    var latest, again := Latest(a, cutoff), Latest(out, cutoff);
    forall k ensures (k in latest <==> k in again) && (k in latest ==> latest[k] == again[k]) {
      LatestIsMaximal(a, cutoff, k);
      LatestIsMaximal(out, cutoff, k);
      if k in latest {
        assert Competes(latest[k], out, cutoff, k);
        OneEventPerKey(out, latest[k], again[k]);
      }
    }
    assert latest == again;
  }

  lemma ListsUnique(a: seq<CdcEvent>, b: seq<CdcEvent>, latest: map<string, CdcEvent>)
    requires Lists(a, latest) && Lists(b, latest)
    ensures a == b
  {
    TextTotal();
    var ka, kb := EventKeys(a), EventKeys(b);
    forall k ensures k in ka <==> k in kb {
      if k in ka { ListedKey(a, b, latest, k); }
      if k in kb { ListedKey(b, a, latest, k); }
    }
    AscendingUnique(TextBelow, ka, kb);
    forall i | 0 <= i < |a| ensures a[i] == b[i] {
      assert ka[i] == KeyOf(a[i]) && kb[i] == KeyOf(b[i]);
      assert a[i] in a && b[i] in b;
    }
  }

  lemma ListedKey(a: seq<CdcEvent>, b: seq<CdcEvent>, latest: map<string, CdcEvent>, k: string)
    requires Lists(a, latest) && Lists(b, latest) && k in EventKeys(a)
    ensures k in EventKeys(b)
  {
    var i :| 0 <= i < |a| && EventKeys(a)[i] == k;
    assert a[i] in a && latest[KeyOf(a[i])] in b;
    var j :| 0 <= j < |b| && b[j] == a[i];
    assert EventKeys(b)[j] == k;
  }

  /** Deduplicating a batch first and adding the rest later gives exactly what deduplicating
      everything at once gives. `kept`, `stepwise` and `atOnce` are what deduplicate_events returns. */
  lemma IncrementalDeduplication(a: seq<CdcEvent>, b: seq<CdcEvent>, cutoff: Option<int>,
                                 kept: seq<CdcEvent>, stepwise: seq<CdcEvent>, atOnce: seq<CdcEvent>)
    requires Lists(kept, Latest(a, cutoff))
    requires Lists(stepwise, Latest(kept + b, cutoff)) && Lists(atOnce, Latest(a + b, cutoff))
    ensures stepwise == atOnce
  {
    DeduplicatedLatest(a, kept, cutoff);
    TakeAllSplit(map[], kept, b, cutoff);
    TakeAllSplit(map[], a, b, cutoff);
    ListsUnique(stepwise, atOnce, Latest(a + b, cutoff));
  }

  /** Without a cutoff every event counts: the winners and the state are those of any cutoff no
      event is beyond. */
  lemma {:induction false} NoCutoffTakesAll(events: seq<CdcEvent>, cutoff: int)
    requires forall e :: e in events ==> e.batch <= cutoff
    ensures Latest(events, None) == Latest(events, Some(cutoff))
    ensures CurrentState(events, None) == CurrentState(events, Some(cutoff))
  {
    if events != [] {
      var front, last := events[..|events| - 1], events[|events| - 1];
      assert last in events;
      NoCutoffTakesAll(front, cutoff);
    }
  }

  // ---- one event at a time ----------------------------------------------------------------

  // Applying one event to the state: an upsert, or a removal.
  function ApplyEvent(state: map<string, SnapshotRecord>, e: CdcEvent): map<string, SnapshotRecord> {
    if Alive(e) then state[KeyOf(e) := RecordOf(e)] else state - {KeyOf(e)}
  }

  function Replay(events: seq<CdcEvent>): map<string, SnapshotRecord> {
    if events == [] then map[] else ApplyEvent(Replay(events[..|events| - 1]), events[|events| - 1])
  }

  ghost predicate InOrder(events: seq<CdcEvent>) {
    forall i, j :: 0 <= i < j < |events| ==> !OrderBelow(events[j], events[i])
  }

  // Where the last event of a key is among the first `n`, or -1.
  function LastIndex(events: seq<CdcEvent>, n: nat, k: string): (i: int)
    requires n <= |events|
    ensures -1 <= i < n
    ensures i >= 0 ==> KeyOf(events[i]) == k
    ensures forall j :: i < j < n ==> KeyOf(events[j]) != k
  {
    if n == 0 then -1 else if KeyOf(events[n - 1]) == k then n - 1 else LastIndex(events, n - 1, k)
  }

  lemma {:induction false} ReplayIsLastWord(events: seq<CdcEvent>, n: nat, k: string)
    requires n <= |events|
    ensures var i := LastIndex(events, n, k);
            && (k in Replay(events[..n]) <==> i >= 0 && Alive(events[i]))
            && (k in Replay(events[..n]) ==> Replay(events[..n])[k] == RecordOf(events[i]))
  {
    if n > 0 {
      assert events[..n][..n - 1] == events[..n - 1];
      ReplayIsLastWord(events, n - 1, k);
    }
  }

  /** Latest-wins equals applying the events within the cutoff one at a time in event order. */
  lemma StateIsReplay(events: seq<CdcEvent>, cutoff: Option<int>, ordered: seq<CdcEvent>)
    requires OrderIdentifies(events) && InOrder(ordered)
    requires forall e :: e in ordered <==> e in events && Within(e, cutoff)
    ensures CurrentState(events, cutoff) == Replay(ordered)
  {
    var state, replay := CurrentState(events, cutoff), Replay(ordered);
    forall k ensures (k in state <==> k in replay) && (k in state ==> state[k] == replay[k]) {
      LatestIsMaximal(events, cutoff, k);
      ReplayIsLastWord(ordered, |ordered|, k);
      assert ordered[..|ordered|] == ordered;
      var i := LastIndex(ordered, |ordered|, k);
      if i >= 0 {
        LastIsWinner(events, cutoff, ordered, i);
      }
    }
    assert state == replay;
  }

  lemma LastIsWinner(events: seq<CdcEvent>, cutoff: Option<int>, ordered: seq<CdcEvent>, i: nat)
    requires OrderIdentifies(events) && InOrder(ordered) && i < |ordered|
    requires forall e :: e in ordered <==> e in events && Within(e, cutoff)
    requires forall j :: i < j < |ordered| ==> KeyOf(ordered[j]) != KeyOf(ordered[i])
    ensures KeyOf(ordered[i]) in Latest(events, cutoff)
    ensures Latest(events, cutoff)[KeyOf(ordered[i])] == ordered[i]
  {
    var e := ordered[i];
    assert e in ordered;
    forall x | Competes(x, events, cutoff, KeyOf(e)) ensures !OrderBelow(e, x) {
      assert x in ordered;
      var j :| 0 <= j < |ordered| && ordered[j] == x;
      OrderIsTotal(e, e, e);
    }
    WinnerIs(events, cutoff, e);
  }
}
