/** What a passed report says in terms of the data: rows pair off with the same values, so a
    candidate that is wrong in one cell of one row never passes. */
module GateMeaning {
  import opened Models
  import opened Canonical
  import Framing
  import Reconciliation
  import opened CellTheorems
  import opened Gate
  import GateTheorems
  import GateCompleteness

  // The candidate's rows, in some order, hold the values of the source's rows.
  ghost predicate SameData(lib: Library, entity: EntityRule, readers: Readers) {
    var source, candidate := readers.source(entity.name), readers.candidate(entity.name);
    && source.Some? && candidate.Some?
    && exists y :: Pairs(lib, source.value, candidate.value, entity.columns, y)
  }

  /** A passed report means this of every configured entity: both sides were fetched, and their
      rows pair off with the same value in every column - texts with one normal form, decimals
      that round to one number, everything else equal, NULL only with NULL. */
  lemma PassedReportMeansSameData(lib: Library, ctx: Context, entities: seq<EntityRule>, readers: Readers,
                                  entity: EntityRule)
    requires Framing.Faithful(lib) && forall e :: e in entities ==> e.columns != []
    requires Report(ctx, AllChecks(lib, entities, readers)).passed && entity in entities
    ensures SameData(lib, entity, readers)
  {
    GateTheorems.GateIsSound(lib, ctx, entities, readers);
    assert GateTheorems.EntityReconciled(lib, entity, readers);
    OneRelationExactlyWhenPaired(lib, readers.source(entity.name).value, readers.candidate(entity.name).value,
                                 entity.columns);
  }

  // Among these rows no other row has this one's key.
  ghost predicate OnlyRowOfItsKey(lib: Library, rows: seq<Row>, r: Row, keys: seq<ColumnRule>) {
    r in rows && forall s :: s in rows && SameRow(lib, s, r, keys) ==> s == r
  }

  lemma PairedRowsShareKeys(lib: Library, entity: EntityRule, r: Row, q: Row)
    requires GateTheorems.WellFormed(entity) && SameRow(lib, r, q, entity.columns)
    ensures SameRow(lib, r, q, GateTheorems.Keys(entity))
  {
    GateCompleteness.KeysAreColumns(entity);
  }

  lemma SameRowChains(lib: Library, a: Row, b: Row, c: Row, columns: seq<ColumnRule>)
    requires SameRow(lib, a, b, columns) && SameRow(lib, c, b, columns)
    ensures SameRow(lib, a, c, columns)
  {
    RowDecides(lib, a, b, columns);
    RowDecides(lib, c, b, columns);
    RowDecides(lib, a, c, columns);
  }

  lemma PassedRowsAgree(lib: Library, ctx: Context, entities: seq<EntityRule>, readers: Readers, entity: EntityRule,
                        r: Row, q: Row)
    requires Framing.Faithful(lib) && (forall e :: e in entities ==> e.columns != [])
    requires entity in entities && GateTheorems.WellFormed(entity)
    requires readers.source(entity.name).Some? && readers.candidate(entity.name).Some?
    requires OnlyRowOfItsKey(lib, readers.source(entity.name).value, r, GateTheorems.Keys(entity))
    requires q in readers.candidate(entity.name).value && SameRow(lib, r, q, GateTheorems.Keys(entity))
    requires Report(ctx, AllChecks(lib, entities, readers)).passed
    ensures SameRow(lib, r, q, entity.columns)
  {
    PassedReportMeansSameData(lib, ctx, entities, readers, entity);
    var a, b := readers.source(entity.name).value, readers.candidate(entity.name).value;
    var i := PartnerOf(lib, a, b, entity.columns, q);
    PairedRowsShareKeys(lib, entity, a[i], q);
    SameRowChains(lib, a[i], q, r, GateTheorems.Keys(entity));
  }

  lemma PartnerOf(lib: Library, a: seq<Row>, b: seq<Row>, columns: seq<ColumnRule>, q: Row) returns (i: nat)
    requires (exists y :: Pairs(lib, a, b, columns, y)) && q in b
    ensures i < |a| && SameRow(lib, a[i], q, columns)
  {
    var y :| Pairs(lib, a, b, columns, y);
    assert q in multiset(b) && q in multiset(y);
    i :| 0 <= i < |y| && y[i] == q;
  }

  /** One wrong cell is enough: if the candidate holds a row under the key of a source row, the
      only one of its key, with another value in some column, no report over it is passed. */
  lemma WrongCellNeverPasses(lib: Library, ctx: Context, entities: seq<EntityRule>, readers: Readers,
                             entity: EntityRule, r: Row, q: Row, c: ColumnRule)
    requires Framing.Faithful(lib) && (forall e :: e in entities ==> e.columns != [])
    requires entity in entities && GateTheorems.WellFormed(entity) && c in entity.columns
    requires readers.source(entity.name).Some? && readers.candidate(entity.name).Some?
    requires OnlyRowOfItsKey(lib, readers.source(entity.name).value, r, GateTheorems.Keys(entity))
    requires q in readers.candidate(entity.name).value && SameRow(lib, r, q, GateTheorems.Keys(entity))
    requires !SameCell(lib, r, q, c)
    ensures !Report(ctx, AllChecks(lib, entities, readers)).passed
  {
    if Report(ctx, AllChecks(lib, entities, readers)).passed {
      PassedRowsAgree(lib, ctx, entities, readers, entity, r, q);
    }
  }

  /** In particular a text cell whose normal form differs from the source's. */
  lemma WrongTextNeverPasses(lib: Library, ctx: Context, entities: seq<EntityRule>, readers: Readers,
                             entity: EntityRule, r: Row, q: Row, c: ColumnRule)
    requires Framing.Faithful(lib) && (forall e :: e in entities ==> e.columns != [])
    requires entity in entities && GateTheorems.WellFormed(entity) && c in entity.columns && c.kind.TextType?
    requires readers.source(entity.name).Some? && readers.candidate(entity.name).Some?
    requires OnlyRowOfItsKey(lib, readers.source(entity.name).value, r, GateTheorems.Keys(entity))
    requires q in readers.candidate(entity.name).value && SameRow(lib, r, q, GateTheorems.Keys(entity))
    requires c.name in r && c.name in q && r[c.name].Text? && q[c.name].Text?
    requires lib.nfc(r[c.name].text) != lib.nfc(q[c.name].text)
    ensures !Report(ctx, AllChecks(lib, entities, readers)).passed
  {
    WrongCellNeverPasses(lib, ctx, entities, readers, entity, r, q, c);
  }

  /** A report is passed exactly when something was checked and every check passed; with no
      entities there is nothing. */
  lemma ReportPassesExactlyWhen(lib: Library, ctx: Context, entities: seq<EntityRule>, readers: Readers)
    ensures Report(ctx, AllChecks(lib, entities, readers)).passed
       <==> entities != [] && forall e, c :: e in entities && c in Guarded(lib, e, readers) ==> c.passed
  {
    GateTheorems.AllChecksCover(lib, entities, readers);
    forall e | e in entities ensures Guarded(lib, e, readers) != [] { GateTheorems.AlwaysChecked(lib, e, readers); }
    if entities != [] { assert entities[0] in entities; }
    if forall e :: e in entities ==> AllPassed(Guarded(lib, e, readers)) {
      forall e, c | e in entities && c in Guarded(lib, e, readers) ensures c.passed {
        assert AllPassed(Guarded(lib, e, readers));
      }
    }
  }
}
