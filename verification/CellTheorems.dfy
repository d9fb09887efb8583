/** What canonical texts say of cells: which values have one, and when two values share one. */
module CellTheorems {
  import opened Models
  import opened Decimals
  import DecimalText
  import DebeziumDecimal
  import opened Canonical
  import Extremes
  import Reconciliation

  // A value a column of this kind can hold; NULL is one of every column.
  ghost predicate Fits(v: Value, kind: CanonicalType) {
    v.Null? ||
    match kind
    case TextType => v.Text?
    case DateType => v.Date?
    case TimestampType => v.Timestamp? && v.aware
    case DecimalType => v.Decimal? || v.Integer? || (v.Text? && DecimalText.ReadFixed(v.text).Some?)
    case BooleanType => v.Boolean?
    case IntegerType => v.Integer?
  }

  // The number a value of a decimal column stands for.
  function NumberOf(v: Value): Dec
    requires !v.Null? && Fits(v, DecimalType)
  {
    match v
    case Decimal(d) => d
    case Integer(n) => DebeziumDecimal.OfInt(n)
    case Text(s) => DecimalText.ReadFixed(s).value
  }

  /** Two values of a column are the same value: both NULL, or texts with one normal form, one
      day, one instant, one truth value, one integer, or decimals that round to one number. */
  ghost predicate SameValue(lib: Library, v: Value, w: Value, kind: CanonicalType)
    requires Fits(v, kind) && Fits(w, kind)
  {
    if v.Null? || w.Null? then v.Null? && w.Null?
    else
      match kind
      case TextType => lib.nfc(v.text) == lib.nfc(w.text)
      case DateType => v.day == w.day
      case TimestampType => v.micros == w.micros
      case DecimalType => NumEq(Round(NumberOf(v)), Round(NumberOf(w)))
      case BooleanType => v.flag == w.flag
      case IntegerType => v.number == w.number
  }

  lemma IntTextDecides(p: string, m: int, n: int)
    ensures p + IntText(m) == p + IntText(n) <==> m == n
  {
    SameTail(p, IntText(m), IntText(n));
    Extremes.IntTextReads(m);
    Extremes.IntTextReads(n);
  }

  lemma DecimalTextDecides(a: Dec, b: Dec)
    ensures "M:" + DecimalText.CanonicalText(a) == "M:" + DecimalText.CanonicalText(b) <==> NumEq(Round(a), Round(b))
  {
    SameTail("M:", DecimalText.CanonicalText(a), DecimalText.CanonicalText(b));
    DecimalText.CanonicalTextDecides(a, b);
  }

  /** Exactly the values a column can hold have a canonical text, and only NULL has that of NULL. */
  lemma TextExistsExactlyWhen(lib: Library, v: Value, kind: CanonicalType)
    ensures Canonicalize(lib, v, kind).Some? <==> Fits(v, kind)
    ensures Canonicalize(lib, v, kind) == Some("N") <==> v.Null?
  {
  }

  /** Two values of one column share a canonical text exactly when they are the same value. */
  lemma TextDecidesValue(lib: Library, v: Value, w: Value, kind: CanonicalType)
    requires Fits(v, kind) && Fits(w, kind)
    ensures Canonicalize(lib, v, kind) == Canonicalize(lib, w, kind) <==> SameValue(lib, v, w, kind)
  {
    TextExistsExactlyWhen(lib, v, kind);
    TextExistsExactlyWhen(lib, w, kind);
    if !v.Null? && !w.Null? {
      match kind
      case TextType => SameTail("S:", lib.nfc(v.text), lib.nfc(w.text));
      case DateType => IntTextDecides("D:", v.day, w.day);
      case TimestampType => IntTextDecides("T:", v.micros, w.micros);
      case DecimalType => DecimalTextDecides(NumberOf(v), NumberOf(w));
      case BooleanType => TruthTexts();
      case IntegerType => IntTextDecides("I:", v.number, w.number);
    }
  }

  lemma TruthTexts()
    ensures "B:1" != "B:0"
  {
    assert "B:1"[2] != "B:0"[2];
  }

  // ---- rows ------------------------------------------------------------------------------------

  ghost predicate SameCell(lib: Library, r: Row, q: Row, c: ColumnRule) {
    && c.name in r && c.name in q && Fits(r[c.name], c.kind) && Fits(q[c.name], c.kind)
    && SameValue(lib, r[c.name], q[c.name], c.kind)
  }

  // The rows hold the same values in every column.
  ghost predicate SameRow(lib: Library, r: Row, q: Row, columns: seq<ColumnRule>) {
    forall c :: c in columns ==> SameCell(lib, r, q, c)
  }

  lemma CellDecides(lib: Library, r: Row, q: Row, c: ColumnRule)
    ensures Cell(lib, r, c).Some? && Cell(lib, r, c) == Cell(lib, q, c) <==> SameCell(lib, r, q, c)
  {
    if c.name in r && c.name in q {
      TextExistsExactlyWhen(lib, r[c.name], c.kind);
      TextExistsExactlyWhen(lib, q[c.name], c.kind);
      if Fits(r[c.name], c.kind) && Fits(q[c.name], c.kind) { TextDecidesValue(lib, r[c.name], q[c.name], c.kind); }
    }
  }

  lemma {:induction false} RowDecides(lib: Library, r: Row, q: Row, columns: seq<ColumnRule>)
    ensures Cells(lib, r, columns).Some? && Cells(lib, r, columns) == Cells(lib, q, columns)
       <==> SameRow(lib, r, q, columns)
  {
    forall c | c in columns
      ensures Cell(lib, r, c).Some? && Cell(lib, r, c) == Cell(lib, q, c) <==> SameCell(lib, r, q, c)
    {
      CellDecides(lib, r, q, c);
    }
    if Cells(lib, r, columns).Some? && Cells(lib, r, columns) == Cells(lib, q, columns) {
      forall c | c in columns ensures SameCell(lib, r, q, c) {
        var i :| 0 <= i < |columns| && columns[i] == c;
        assert Cell(lib, r, columns[i]) == Some(Cells(lib, r, columns).value[i]);
        assert Cell(lib, q, columns[i]) == Some(Cells(lib, q, columns).value[i]);
      }
    }
    if SameRow(lib, r, q, columns) { Reconciliation.SameCells(lib, r, q, columns); }
  }

  // ---- relations ---------------------------------------------------------------------------------

  // `y` is `b` in another order, and holds the rows of `a` one by one.
  ghost predicate Pairs(lib: Library, a: seq<Row>, b: seq<Row>, columns: seq<ColumnRule>, y: seq<Row>) {
    && multiset(y) == multiset(b) && |y| == |a|
    && forall i :: 0 <= i < |a| ==> SameRow(lib, a[i], y[i], columns)
  }

  // Elements with one image, paired off.
  lemma {:induction false} PairOff<T, X>(a: seq<T>, b: seq<T>, g: T -> X) returns (y: seq<T>)
    requires multiset(Reconciliation.Images(a, g)) == multiset(Reconciliation.Images(b, g))
    ensures multiset(y) == multiset(b) && |y| == |a|
    ensures forall i :: 0 <= i < |a| ==> g(a[i]) == g(y[i])
    decreases |a|
  {
    var s, t := Reconciliation.Images(a, g), Reconciliation.Images(b, g);
    assert |multiset(s)| == |s| && |multiset(t)| == |t|;
    if a == [] {
      y := [];
    } else {
      var j := Reconciliation.IndexIn(t, s[0]);
      Reconciliation.Removed(s, t, j);
      Reconciliation.ImagesWithout(b, j, g);
      assert s[1..] == Reconciliation.Images(a[1..], g);
      var rest := PairOff(a[1..], b[..j] + b[j + 1..], g);
      y := [b[j]] + rest;
      Reconciliation.Drop(b, j);
    }
  }

  function CanonIn(lib: Library, columns: seq<ColumnRule>): Row -> seq<string> {
    r => Reconciliation.Canon(lib, r, columns)
  }

  /** Two sides are one canonical relation, readable throughout, exactly when their rows can be
      paired off so that paired rows hold the same value in every column. */
  lemma OneRelationExactlyWhenPaired(lib: Library, a: seq<Row>, b: seq<Row>, columns: seq<ColumnRule>)
    ensures Reconciliation.OneRelation(lib, a, b, columns) <==> exists y :: Pairs(lib, a, b, columns, y)
  {
    var g := CanonIn(lib, columns);
    RelationIsImages(lib, a, columns);
    RelationIsImages(lib, b, columns);
    if Reconciliation.OneRelation(lib, a, b, columns) {
      var y := PairOff(a, b, g);
      forall i | 0 <= i < |a| ensures SameRow(lib, a[i], y[i], columns) {
        assert y[i] in multiset(y) && y[i] in b && a[i] in a;
        RowDecides(lib, a[i], y[i], columns);
      }
      assert Pairs(lib, a, b, columns, y);
    }
    if exists y :: Pairs(lib, a, b, columns, y) {
      var y :| Pairs(lib, a, b, columns, y);
      PairedIsOneRelation(lib, a, b, columns, y);
    }
  }

  lemma RelationIsImages(lib: Library, rows: seq<Row>, columns: seq<ColumnRule>)
    ensures Reconciliation.Relation(lib, rows, columns) == multiset(Reconciliation.Images(rows, CanonIn(lib, columns)))
  {
    assert seq(|rows|, i requires 0 <= i < |rows| => Reconciliation.Canon(lib, rows[i], columns))
        == Reconciliation.Images(rows, CanonIn(lib, columns));
  }

  lemma PairedIsOneRelation(lib: Library, a: seq<Row>, b: seq<Row>, columns: seq<ColumnRule>, y: seq<Row>)
    requires Pairs(lib, a, b, columns, y)
    ensures Reconciliation.OneRelation(lib, a, b, columns)
  {
    var g := CanonIn(lib, columns);
    forall i | 0 <= i < |a|
      ensures Cells(lib, a[i], columns).Some? && Cells(lib, a[i], columns) == Cells(lib, y[i], columns)
    {
      RowDecides(lib, a[i], y[i], columns);
    }
    assert Reconciliation.Images(a, g) == Reconciliation.Images(y, g);
    Reconciliation.ImagesPermute(y, b, g);
    RelationIsImages(lib, a, columns);
    RelationIsImages(lib, b, columns);
    assert |multiset(y)| == |y| && |multiset(b)| == |b|;
    forall r | r in b ensures Cells(lib, r, columns).Some? {
      assert r in multiset(b) && r in multiset(y);
      var i :| 0 <= i < |y| && y[i] == r;
    }
  }
}
