/** Rows as canonical relations: passing checksums make both sides one relation, and one
    relation, in any order of rows, passes every checksum. */
module Reconciliation {
  import opened Models
  import opened Orders
  import opened Canonical
  import opened Framing

  // The canonical texts of a row, column by column; empty if some cell has none.
  function Canon(lib: Library, row: Row, columns: seq<ColumnRule>): seq<string> {
    var cells := Cells(lib, row, columns);
    if cells.Some? then cells.value else []
  }

  // The canonical relation a list of rows stands for, with multiplicities.
  function Relation(lib: Library, rows: seq<Row>, columns: seq<ColumnRule>): multiset<seq<string>> {
    multiset(seq(|rows|, i requires 0 <= i < |rows| => Canon(lib, rows[i], columns)))
  }

  // Every cell of every row has a canonical text.
  ghost predicate Readable(lib: Library, rows: seq<Row>, columns: seq<ColumnRule>) {
    forall r :: r in rows ==> Cells(lib, r, columns).Some?
  }

  // Both sides read throughout, and are one canonical relation.
  ghost predicate OneRelation(lib: Library, a: seq<Row>, b: seq<Row>, columns: seq<ColumnRule>) {
    && Readable(lib, a, columns) && Readable(lib, b, columns)
    && |a| == |b| && Relation(lib, a, columns) == Relation(lib, b, columns)
  }

  // ---- permutations ----------------------------------------------------------------------------

  function Images<T, X>(s: seq<T>, g: T -> X): (r: seq<X>)
    ensures |r| == |s| && forall i :: 0 <= i < |s| ==> r[i] == g(s[i])
  {
    seq(|s|, i requires 0 <= i < |s| => g(s[i]))
  }

  lemma Drop<T>(s: seq<T>, j: nat)
    requires j < |s|
    ensures multiset(s) == multiset(s[..j] + s[j + 1..]) + multiset{s[j]}
  {
    assert s == s[..j] + [s[j]] + s[j + 1..];
  }

  lemma ImagesWithout<T, X>(s: seq<T>, j: nat, g: T -> X)
    requires j < |s|
    ensures Images(s[..j] + s[j + 1..], g) == Images(s, g)[..j] + Images(s, g)[j + 1..]
  {
  }

  lemma Cancel<T>(x: multiset<T>, y: multiset<T>, t: T)
    requires x + multiset{t} == y + multiset{t}
    ensures x == y
  {
    assert x == (x + multiset{t}) - multiset{t};
    assert y == (y + multiset{t}) - multiset{t};
  }

  // Taking one occurrence of an element from each of two permutations.
  lemma Removed<T>(a: seq<T>, b: seq<T>, j: nat)
    requires a != [] && j < |b| && b[j] == a[0] && multiset(a) == multiset(b)
    ensures multiset(a[1..]) == multiset(b[..j] + b[j + 1..])
  {
    Drop(a, 0);
    Drop(b, j);
    assert a[..0] + a[1..] == a[1..];
    Cancel(multiset(a[1..]), multiset(b[..j] + b[j + 1..]), a[0]);
  }

  lemma Restored<T>(a: seq<T>, b: seq<T>, j: nat)
    requires a != [] && j < |b| && b[j] == a[0] && multiset(a[1..]) == multiset(b[..j] + b[j + 1..])
    ensures multiset(a) == multiset(b)
  {
    Drop(a, 0);
    Drop(b, j);
    assert a[..0] + a[1..] == a[1..];
  }

  lemma ImagesRestored<T, X>(a: seq<T>, b: seq<T>, j: nat, g: T -> X)
    requires a != [] && j < |b| && b[j] == a[0]
    requires multiset(Images(a[1..], g)) == multiset(Images(b[..j] + b[j + 1..], g))
    ensures multiset(Images(a, g)) == multiset(Images(b, g))
  {
    ImagesWithout(b, j, g);
    assert Images(a, g)[1..] == Images(a[1..], g);
    Restored(Images(a, g), Images(b, g), j);
  }

  lemma {:induction false} ImagesPermute<T, X>(a: seq<T>, b: seq<T>, g: T -> X)
    requires multiset(a) == multiset(b)
    ensures multiset(Images(a, g)) == multiset(Images(b, g))
    decreases |a|
  {
    assert |multiset(a)| == |a| && |multiset(b)| == |b|;
    if a != [] {
      assert a[0] in multiset(b);
      var j :| 0 <= j < |b| && b[j] == a[0];
      Removed(a, b, j);
      ImagesPermute(a[1..], b[..j] + b[j + 1..], g);
      ImagesRestored(a, b, j, g);
    }
  }

  function CanonOf(lib: Library, columns: seq<ColumnRule>): KeyedRow -> seq<string> {
    (r: KeyedRow) => Canon(lib, r.row, columns)
  }

  lemma RelationOfKeyed(lib: Library, rows: seq<Row>, keys: seq<ColumnRule>, columns: seq<ColumnRule>)
    requires WithKeys(lib, rows, keys).Some?
    ensures Relation(lib, rows, columns) == multiset(Images(WithKeys(lib, rows, keys).value, CanonOf(lib, columns)))
  {
    var keyed := WithKeys(lib, rows, keys).value;
    var canons := seq(|rows|, i requires 0 <= i < |rows| => Canon(lib, rows[i], columns));
    forall i | 0 <= i < |rows| ensures Images(keyed, CanonOf(lib, columns))[i] == canons[i] {
      assert keyed[i].row == rows[i];
    }
    assert Images(keyed, CanonOf(lib, columns)) == canons;
  }

  lemma RelationOfSorted(lib: Library, rows: seq<Row>, keys: seq<ColumnRule>, columns: seq<ColumnRule>)
    requires SortedRows(lib, rows, keys).Some?
    ensures Relation(lib, rows, columns) == multiset(Images(SortedRows(lib, rows, keys).value, CanonOf(lib, columns)))
  {
    var keyed := WithKeys(lib, rows, keys).value;
    SortedKeeps(keyed);
    ImagesPermute(Sorted(keyed), keyed, CanonOf(lib, columns));
    RelationOfKeyed(lib, rows, keys, columns);
  }

  // ---- soundness -----------------------------------------------------------------------------------

  // Sorted by key, the rows agree in every column.
  ghost predicate Alike(lib: Library, a: seq<KeyedRow>, b: seq<KeyedRow>, columns: seq<ColumnRule>) {
    && |a| == |b|
    && forall i :: 0 <= i < |a| ==>
         && a[i].key == b[i].key
         && Cells(lib, a[i].row, columns).Some?
         && Cells(lib, a[i].row, columns) == Cells(lib, b[i].row, columns)
  }

  lemma {:induction false} SameCells(lib: Library, x: Row, y: Row, columns: seq<ColumnRule>)
    requires forall c :: c in columns ==> Cell(lib, x, c).Some? && Cell(lib, x, c) == Cell(lib, y, c)
    ensures Cells(lib, x, columns).Some? && Cells(lib, x, columns) == Cells(lib, y, columns)
  {
    if columns != [] { SameCells(lib, x, y, columns[1..]); }
  }

  lemma {:induction false} TextsReadable(lib: Library, rows: seq<KeyedRow>, column: ColumnRule, i: nat)
    requires Texts(lib, rows, column).Some? && i < |rows|
    ensures Cell(lib, rows[i].row, column).Some?
  {
    if i < |rows| - 1 { TextsReadable(lib, rows[..|rows| - 1], column, i); }
  }

  // All checksums of the columns are computed and agree.
  ghost predicate ChecksumsPass(lib: Library, a: seq<Row>, b: seq<Row>, columns: seq<ColumnRule>,
                            keys: seq<ColumnRule>) {
    forall c :: c in columns ==>
      Checksum(lib, a, c, keys).Some? && Checksum(lib, a, c, keys) == Checksum(lib, b, c, keys)
  }

  lemma PassingIsAlike(lib: Library, a: seq<Row>, b: seq<Row>, columns: seq<ColumnRule>, keys: seq<ColumnRule>)
    requires Faithful(lib) && columns != [] && ChecksumsPass(lib, a, b, columns, keys)
    ensures SortedRows(lib, a, keys).Some? && SortedRows(lib, b, keys).Some?
    ensures Alike(lib, SortedRows(lib, a, keys).value, SortedRows(lib, b, keys).value, columns)
  {
    assert columns[0] in columns;
    ChecksumDecides(lib, a, b, columns[0], keys);
    var x, y := SortedRows(lib, a, keys).value, SortedRows(lib, b, keys).value;
    forall i | 0 <= i < |x|
      ensures x[i].key == y[i].key && Cells(lib, x[i].row, columns).Some?
              && Cells(lib, x[i].row, columns) == Cells(lib, y[i].row, columns)
    {
      forall c | c in columns ensures Cell(lib, x[i].row, c).Some? && Cell(lib, x[i].row, c) == Cell(lib, y[i].row, c) {
        ChecksumDecides(lib, a, b, c, keys);
        TextsReadable(lib, x, c, i);
      }
      SameCells(lib, x[i].row, y[i].row, columns);
    }
  }

  lemma AlikeIsOneRelation(lib: Library, a: seq<Row>, b: seq<Row>, columns: seq<ColumnRule>, keys: seq<ColumnRule>)
    requires SortedRows(lib, a, keys).Some? && SortedRows(lib, b, keys).Some?
    requires Alike(lib, SortedRows(lib, a, keys).value, SortedRows(lib, b, keys).value, columns)
    ensures Relation(lib, a, columns) == Relation(lib, b, columns) && |a| == |b|
  {
    var x, y := SortedRows(lib, a, keys).value, SortedRows(lib, b, keys).value;
    RelationOfSorted(lib, a, keys, columns);
    RelationOfSorted(lib, b, keys, columns);
    assert Images(x, CanonOf(lib, columns)) == Images(y, CanonOf(lib, columns));
    SortedRowsAre(lib, a, keys);
    SortedRowsAre(lib, b, keys);
  }

  // ---- completeness --------------------------------------------------------------------------------

  ghost predicate NoRepeats<T>(s: seq<T>) { forall i, j :: 0 <= i < j < |s| ==> s[i] != s[j] }

  function KeyTexts(rows: seq<KeyedRow>): (r: seq<seq<string>>)
    ensures |r| == |rows|
  {
    Images(rows, (x: KeyedRow) => x.key)
  }

  lemma {:induction false} NoRepeatsPermute<T>(a: seq<T>, b: seq<T>)
    requires multiset(a) == multiset(b) && NoRepeats(a)
    ensures NoRepeats(b)
  {
    forall i, j | 0 <= i < j < |b| ensures b[i] != b[j] {
      if b[i] == b[j] {
        Drop(b, j);
        assert (b[..j] + b[j + 1..])[i] == b[i];
        assert b[i] in multiset(b[..j] + b[j + 1..]);
        OnceOnly(a, b[i]);
      }
    }
  }

  lemma {:induction false} OnceOnly<T>(a: seq<T>, x: T)
    requires NoRepeats(a)
    ensures multiset(a)[x] <= 1
  {
    if a != [] {
      var n := |a| - 1;
      assert a == a[..n] + [a[n]];
      OnceOnly(a[..n], x);
      if x == a[n] { assert x !in a[..n]; }
    }
  }

  // Sorted, not necessarily strictly.
  ghost predicate Ordered(s: seq<KeyedRow>) {
    forall i, j :: 0 <= i < j < |s| ==> !TupleBelow(s[j].key, s[i].key)
  }

  lemma {:induction false} InsertOrders(x: KeyedRow, s: seq<KeyedRow>)
    requires Ordered(s)
    ensures Ordered(Insert(x, s))
  {
    TupleTotal();
    InsertKeeps(x, s);
    if s != [] && TupleBelow(x.key, s[|s| - 1].key) {
      var front, last := s[..|s| - 1], s[|s| - 1];
      InsertOrders(x, front);
      InsertKeeps(x, front);
      forall y | y in Insert(x, front) ensures !TupleBelow(last.key, y.key) {
        assert y in multiset(Insert(x, front));
        if y != x { assert y in multiset(front); }
      }
    } else if s != [] {
      forall i | 0 <= i < |s| ensures !TupleBelow(x.key, s[i].key) {
        BelowChain(x.key, s[|s| - 1].key, s[i].key);
      }
    }
  }

  lemma BelowChain(x: seq<string>, y: seq<string>, z: seq<string>)
    requires !TupleBelow(x, y) && (!TupleBelow(y, z) || y == z)
    ensures !TupleBelow(x, z)
  {
    TupleTotal();
  }

  lemma {:induction false} SortedOrders(s: seq<KeyedRow>)
    ensures Ordered(Sorted(s))
  {
    if s != [] {
      SortedOrders(s[..|s| - 1]);
      InsertOrders(s[|s| - 1], Sorted(s[..|s| - 1]));
    }
  }

  lemma SortedAscends(lib: Library, rows: seq<Row>, keys: seq<ColumnRule>)
    requires WithKeys(lib, rows, keys).Some? && NoRepeats(KeyTexts(WithKeys(lib, rows, keys).value))
    ensures Ascending(TupleBelow, KeyTexts(SortedRows(lib, rows, keys).value))
  {
    var keyed := WithKeys(lib, rows, keys).value;
    SortedKeeps(keyed);
    ImagesPermute(Sorted(keyed), keyed, (x: KeyedRow) => x.key);
    NoRepeatsPermute(KeyTexts(keyed), KeyTexts(Sorted(keyed)));
    SortedOrders(keyed);
    TupleTotal();
  }

  lemma {:induction false} KeysFromCells(lib: Library, x: Row, y: Row, columns: seq<ColumnRule>, keys: seq<ColumnRule>)
    requires Cells(lib, x, columns).Some? && Cells(lib, x, columns) == Cells(lib, y, columns)
    requires forall k :: k in keys ==> k in columns
    ensures Cells(lib, x, keys).Some? && Cells(lib, x, keys) == Cells(lib, y, keys)
  {
    forall k | k in keys ensures Cell(lib, x, k).Some? && Cell(lib, x, k) == Cell(lib, y, k) {
      var i :| 0 <= i < |columns| && columns[i] == k;
      assert Cell(lib, x, columns[i]) == Some(Cells(lib, x, columns).value[i]);
      assert Cell(lib, y, columns[i]) == Some(Cells(lib, y, columns).value[i]);
    }
    SameCells(lib, x, y, keys);
  }

  // Somewhere on the other side is a row with the same canonical texts.
  lemma PartnerOf(lib: Library, a: seq<Row>, b: seq<Row>, columns: seq<ColumnRule>, r: Row) returns (q: Row)
    requires Relation(lib, a, columns) == Relation(lib, b, columns) && r in a
    ensures q in b && Canon(lib, q, columns) == Canon(lib, r, columns)
  {
    var ca := seq(|a|, i requires 0 <= i < |a| => Canon(lib, a[i], columns));
    var cb := seq(|b|, i requires 0 <= i < |b| => Canon(lib, b[i], columns));
    var i :| 0 <= i < |a| && a[i] == r;
    assert ca[i] in multiset(ca) && ca[i] in multiset(cb);
    var j :| 0 <= j < |b| && cb[j] == ca[i];
    q := b[j];
  }

  // Where a row ends up when its side is sorted.
  lemma KeyedIn(lib: Library, rows: seq<Row>, keys: seq<ColumnRule>, q: Row) returns (i: nat)
    requires SortedRows(lib, rows, keys).Some? && q in rows
    ensures i < |SortedRows(lib, rows, keys).value| && SortedRows(lib, rows, keys).value[i].row == q
  {
    var keyed := WithKeys(lib, rows, keys).value;
    var j :| 0 <= j < |rows| && rows[j] == q;
    SortedKeeps(keyed);
    i := IndexIn(Sorted(keyed), keyed[j]);
  }

  lemma IndexIn<T>(s: seq<T>, x: T) returns (i: nat)
    requires x in multiset(s)
    ensures i < |s| && s[i] == x
  {
    i :| 0 <= i < |s| && s[i] == x;
  }

  // Row `i` of one side has its canonical texts, and so its key, on the other side.
  lemma PartnerKey(lib: Library, a: seq<Row>, b: seq<Row>, columns: seq<ColumnRule>, keys: seq<ColumnRule>, i: nat)
    returns (j: nat)
    requires Readable(lib, a, columns) && Readable(lib, b, columns) && forall c :: c in keys ==> c in columns
    requires SortedRows(lib, a, keys).Some? && SortedRows(lib, b, keys).Some?
    requires Relation(lib, a, columns) == Relation(lib, b, columns)
    requires i < |SortedRows(lib, a, keys).value|
    ensures j < |SortedRows(lib, b, keys).value|
    ensures SortedRows(lib, b, keys).value[j].key == SortedRows(lib, a, keys).value[i].key
    ensures Cells(lib, SortedRows(lib, b, keys).value[j].row, columns)
         == Cells(lib, SortedRows(lib, a, keys).value[i].row, columns)
  {
    var x, y := SortedRows(lib, a, keys).value, SortedRows(lib, b, keys).value;
    SortedRowsAre(lib, a, keys);
    SortedRowsAre(lib, b, keys);
    var q := PartnerOf(lib, a, b, columns, x[i].row);
    KeysFromCells(lib, x[i].row, q, columns, keys);
    j := KeyedIn(lib, b, keys, q);
  }

  lemma SameKeySet(lib: Library, a: seq<Row>, b: seq<Row>, columns: seq<ColumnRule>, keys: seq<ColumnRule>,
                   k: seq<string>)
    requires Readable(lib, a, columns) && Readable(lib, b, columns) && forall c :: c in keys ==> c in columns
    requires SortedRows(lib, a, keys).Some? && SortedRows(lib, b, keys).Some?
    requires Relation(lib, a, columns) == Relation(lib, b, columns)
    requires k in KeyTexts(SortedRows(lib, a, keys).value)
    ensures k in KeyTexts(SortedRows(lib, b, keys).value)
  {
    var texts := KeyTexts(SortedRows(lib, a, keys).value);
    var i :| 0 <= i < |texts| && texts[i] == k;
    var j := PartnerKey(lib, a, b, columns, keys, i);
    assert KeyTexts(SortedRows(lib, b, keys).value)[j] == k;
  }

  lemma UniqueKey(rows: seq<KeyedRow>, i: nat, j: nat)
    requires Ascending(TupleBelow, KeyTexts(rows)) && i < |rows| && j < |rows| && rows[i].key == rows[j].key
    ensures i == j
  {
    TupleTotal();
    assert KeyTexts(rows)[i] == KeyTexts(rows)[j];
  }

  /** One relation with distinct canonical keys: however the rows are ordered on either
      side, sorted by key they agree in every column. */
  lemma OneRelationIsAlike(lib: Library, a: seq<Row>, b: seq<Row>, columns: seq<ColumnRule>, keys: seq<ColumnRule>)
    requires Readable(lib, a, columns) && Readable(lib, b, columns) && forall c :: c in keys ==> c in columns
    requires SortedRows(lib, a, keys).Some? && SortedRows(lib, b, keys).Some?
    requires NoRepeats(KeyTexts(WithKeys(lib, a, keys).value)) && NoRepeats(KeyTexts(WithKeys(lib, b, keys).value))
    requires Relation(lib, a, columns) == Relation(lib, b, columns)
    ensures Alike(lib, SortedRows(lib, a, keys).value, SortedRows(lib, b, keys).value, columns)
  {
    var x, y := SortedRows(lib, a, keys).value, SortedRows(lib, b, keys).value;
    SortedAscends(lib, a, keys);
    SortedAscends(lib, b, keys);
    forall k ensures k in KeyTexts(x) <==> k in KeyTexts(y) {
      if k in KeyTexts(x) { SameKeySet(lib, a, b, columns, keys, k); }
      if k in KeyTexts(y) { SameKeySet(lib, b, a, columns, keys, k); }
    }
    TupleTotal();
    AscendingUnique(TupleBelow, KeyTexts(x), KeyTexts(y));
    SortedRowsAre(lib, a, keys);
    SortedRowsAre(lib, b, keys);
    forall i | 0 <= i < |x|
      ensures x[i].key == y[i].key && Cells(lib, x[i].row, columns) == Cells(lib, y[i].row, columns)
    {
      assert KeyTexts(x)[i] == KeyTexts(y)[i];
      MatchedAt(lib, a, b, columns, keys, i);
    }
  }

  lemma MatchedAt(lib: Library, a: seq<Row>, b: seq<Row>, columns: seq<ColumnRule>, keys: seq<ColumnRule>, i: nat)
    requires Readable(lib, a, columns) && Readable(lib, b, columns) && forall c :: c in keys ==> c in columns
    requires SortedRows(lib, a, keys).Some? && SortedRows(lib, b, keys).Some?
    requires Relation(lib, a, columns) == Relation(lib, b, columns)
    requires i < |SortedRows(lib, a, keys).value| && i < |SortedRows(lib, b, keys).value|
    requires SortedRows(lib, a, keys).value[i].key == SortedRows(lib, b, keys).value[i].key
    requires Ascending(TupleBelow, KeyTexts(SortedRows(lib, b, keys).value))
    ensures Cells(lib, SortedRows(lib, a, keys).value[i].row, columns)
         == Cells(lib, SortedRows(lib, b, keys).value[i].row, columns)
  {
    var j := PartnerKey(lib, a, b, columns, keys, i);
    UniqueKey(SortedRows(lib, b, keys).value, i, j);
  }

  lemma AlikeEveryColumn(lib: Library, a: seq<KeyedRow>, b: seq<KeyedRow>, columns: seq<ColumnRule>, c: ColumnRule)
    requires Alike(lib, a, b, columns) && c in columns
    ensures AlikeIn(lib, a, b, c)
  {
  }

  /** Checksums decide the relation: with distinct canonical keys on both sides, all
      column checksums agree exactly when source and candidate are one relation of
      canonical values, whatever the order of the rows. */
  lemma ChecksumsDecideTheRelation(lib: Library, a: seq<Row>, b: seq<Row>, columns: seq<ColumnRule>,
                            keys: seq<ColumnRule>)
    requires Faithful(lib) && columns != [] && forall c :: c in keys ==> c in columns
    requires SortedRows(lib, a, keys).Some? && SortedRows(lib, b, keys).Some?
    requires NoRepeats(KeyTexts(WithKeys(lib, a, keys).value)) && NoRepeats(KeyTexts(WithKeys(lib, b, keys).value))
    requires Readable(lib, a, columns) && Readable(lib, b, columns)
    requires forall c :: c in columns ==> Checksum(lib, a, c, keys).Some?
    ensures ChecksumsPass(lib, a, b, columns, keys) <==> Relation(lib, a, columns) == Relation(lib, b, columns)
  {
    if ChecksumsPass(lib, a, b, columns, keys) {
      PassingIsAlike(lib, a, b, columns, keys);
      AlikeIsOneRelation(lib, a, b, columns, keys);
    }
    if Relation(lib, a, columns) == Relation(lib, b, columns) {
      OneRelationIsAlike(lib, a, b, columns, keys);
      forall c | c in columns ensures Checksum(lib, a, c, keys) == Checksum(lib, b, c, keys) {
        AlikeEveryColumn(lib, SortedRows(lib, a, keys).value, SortedRows(lib, b, keys).value, columns, c);
        AlikeChecksums(lib, a, b, c, keys);
      }
    }
  }
}
