/** Checksums subsume counts and aggregates: rows that agree column by column, once sorted
    by key, have the same grouped counts and the same sums, minima and maxima. */
module Redundancy {
  import opened Models
  import opened Decimals
  import DecimalText
  import opened Canonical
  import opened Framing
  import opened Reconciliation
  import opened Extremes
  import opened Totals

  // ---- what agreeing rows share ---------------------------------------------------------------

  function OnRow<X>(g: Row -> X): KeyedRow -> X { (r: KeyedRow) => g(r.row) }

  lemma ImagesOfSorted<X>(lib: Library, rows: seq<Row>, keys: seq<ColumnRule>, g: Row -> X)
    requires SortedRows(lib, rows, keys).Some?
    ensures multiset(Images(rows, g)) == multiset(Images(SortedRows(lib, rows, keys).value, OnRow(g)))
  {
    var keyed := WithKeys(lib, rows, keys).value;
    SortedKeeps(keyed);
    ImagesPermute(Sorted(keyed), keyed, OnRow(g));
    assert Images(keyed, OnRow(g)) == Images(rows, g);
  }

  // Both sides, sorted by key, agree in every column.
  ghost predicate Agreeing(lib: Library, a: seq<Row>, b: seq<Row>, columns: seq<ColumnRule>, keys: seq<ColumnRule>) {
    var x, y := SortedRows(lib, a, keys), SortedRows(lib, b, keys);
    x.Some? && y.Some? && Alike(lib, x.value, y.value, columns)
  }

  // Anything read off the canonical texts of the rows occurs equally often on both sides.
  lemma SharedImages<X>(lib: Library, a: seq<Row>, b: seq<Row>, columns: seq<ColumnRule>, keys: seq<ColumnRule>,
                        g: Row -> X)
    requires Agreeing(lib, a, b, columns, keys)
    requires forall r, q ::
               Cells(lib, r, columns).Some? && Cells(lib, r, columns) == Cells(lib, q, columns) ==> g(r) == g(q)
    ensures multiset(Images(a, g)) == multiset(Images(b, g))
  {
    var x, y := SortedRows(lib, a, keys).value, SortedRows(lib, b, keys).value;
    ImagesOfSorted(lib, a, keys, g);
    ImagesOfSorted(lib, b, keys, g);
    assert Images(x, OnRow(g)) == Images(y, OnRow(g));
  }

  lemma AgreeingReads(lib: Library, a: seq<Row>, b: seq<Row>, columns: seq<ColumnRule>, keys: seq<ColumnRule>)
    requires Agreeing(lib, a, b, columns, keys)
    ensures |a| == |b|
    ensures forall r :: r in a || r in b ==> Cells(lib, r, columns).Some?
  {
    SortedRowsAre(lib, a, keys);
    SortedRowsAre(lib, b, keys);
    forall r | r in a ensures Cells(lib, r, columns).Some? { var _ := KeyedIn(lib, a, keys, r); }
    forall r | r in b ensures Cells(lib, r, columns).Some? { var _ := KeyedIn(lib, b, keys, r); }
  }

  // ---- grouped counts ------------------------------------------------------------------------------

  function Display(lib: Library, columns: seq<ColumnRule>): Row -> string {
    (r: Row) => var t := DisplayKey(lib, r, columns); if t.Some? then t.value else ""
  }

  lemma DisplayShared(lib: Library, r: Row, q: Row, columns: seq<ColumnRule>, group: seq<ColumnRule>)
    requires Cells(lib, r, columns).Some? && Cells(lib, r, columns) == Cells(lib, q, columns)
    requires forall c :: c in group ==> c in columns
    ensures DisplayKey(lib, r, group).Some? && DisplayKey(lib, r, group) == DisplayKey(lib, q, group)
  {
    KeysFromCells(lib, r, q, columns, group);
  }

  lemma CountsTally(lib: Library, rows: seq<Row>, group: seq<ColumnRule>)
    requires forall r :: r in rows ==> DisplayKey(lib, r, group).Some?
    ensures CountsOf(lib, rows, group) == Some(Tally(Images(rows, Display(lib, group))))
  {
    var texts := DisplayKeys(lib, rows, group);
    assert texts.Some?;
    assert texts.value == Images(rows, Display(lib, group));
  }

  lemma SameTally(s: seq<string>, t: seq<string>)
    requires multiset(s) == multiset(t)
    ensures Tally(s) == Tally(t)
  {
  }

  /** Agreeing rows have equal counts for every grouping over configured columns. */
  lemma AgreeingCounts(lib: Library, a: seq<Row>, b: seq<Row>, columns: seq<ColumnRule>, keys: seq<ColumnRule>,
                       group: seq<ColumnRule>)
    requires Agreeing(lib, a, b, columns, keys) && forall c :: c in group ==> c in columns
    ensures CountsOf(lib, a, group).Some? && CountsOf(lib, a, group) == CountsOf(lib, b, group)
  {
    AgreeingReads(lib, a, b, columns, keys);
    forall r | r in a || r in b ensures DisplayKey(lib, r, group).Some? { DisplayShared(lib, r, r, columns, group); }
    CountsTally(lib, a, group);
    CountsTally(lib, b, group);
    var g := Display(lib, group);
    forall r, q | Cells(lib, r, columns).Some? && Cells(lib, r, columns) == Cells(lib, q, columns)
      ensures g(r) == g(q)
    {
      DisplayShared(lib, r, q, columns, group);
    }
    SharedImages(lib, a, b, columns, keys, g);
    SameTally(Images(a, g), Images(b, g));
  }

  // ---- groups of one column's values -----------------------------------------------------------------

  // A row's group and the text it contributes.
  function Tag(lib: Library, column: ColumnRule, groupBy: seq<ColumnRule>): Row -> (string, string) {
    (r: Row) =>
      var g, t := GroupOf(lib, r, groupBy), Cell(lib, r, column);
      (if g.Some? then g.value else "", if t.Some? then t.value else "")
  }

  ghost predicate Groupable(lib: Library, rows: seq<Row>, column: ColumnRule, groupBy: seq<ColumnRule>) {
    forall r :: r in rows ==> GroupOf(lib, r, groupBy).Some? && Cell(lib, r, column).Some?
  }

  // The values collected for one group, empty if there are none.
  function GroupAt(groups: map<string, seq<Value>>, k: string): seq<Value> { if k in groups then groups[k] else [] }

  lemma {:induction false} GroupsExist(lib: Library, rows: seq<Row>, column: ColumnRule, groupBy: seq<ColumnRule>,
                            k: string)
    requires Groupable(lib, rows, column, groupBy)
    ensures Groups(lib, rows, column.name, groupBy).Some?
    ensures var groups := Groups(lib, rows, column.name, groupBy).value;
            && (k in groups ==> groups[k] != [])
            && forall v :: v in GroupAt(groups, k) ==> exists r :: r in rows && column.name in r && r[column.name] == v
  {
    if rows != [] {
      var front, last := rows[..|rows| - 1], rows[|rows| - 1];
      assert last in rows;
      GroupsExist(lib, front, column, groupBy, k);
      var groups := Groups(lib, rows, column.name, groupBy).value;
      forall v | v in GroupAt(groups, k) ensures exists r :: r in rows && column.name in r && r[column.name] == v {
        if v in GroupAt(Groups(lib, front, column.name, groupBy).value, k) {
          var r :| r in front && column.name in r && r[column.name] == v;
          assert r in rows;
        } else {
          assert last[column.name] == v;
        }
      }
    }
  }

  function CountOf<T, X(==)>(s: seq<T>, g: T -> X, x: X): nat { multiset(Images(s, g))[x] }

  lemma CountImages<T, X>(s: seq<T>, v: T, g: T -> X, x: X)
    ensures multiset(Images(s + [v], g))[x] == multiset(Images(s, g))[x] + if g(v) == x then 1 else 0
  {
    assert Images(s + [v], g) == Images(s, g) + [g(v)];
  }

  lemma GroupGrows(lib: Library, rows: seq<Row>, r: Row, column: ColumnRule, groupBy: seq<ColumnRule>, k: string)
    requires Groups(lib, rows, column.name, groupBy).Some? && GroupOf(lib, r, groupBy).Some? && column.name in r
    ensures Groups(lib, rows + [r], column.name, groupBy).Some?
    ensures GroupAt(Groups(lib, rows + [r], column.name, groupBy).value, k)
         == GroupAt(Groups(lib, rows, column.name, groupBy).value, k)
            + if GroupOf(lib, r, groupBy).value == k then [r[column.name]] else []
  {
  }

  // What GroupTexts says of one group and one text.
  ghost predicate TaggedAlike(lib: Library, rows: seq<Row>, column: ColumnRule, groupBy: seq<ColumnRule>, k: string,
                            t: string)
    requires Groups(lib, rows, column.name, groupBy).Some?
  {
    CountOf(GroupAt(Groups(lib, rows, column.name, groupBy).value, k), TextOf(lib, column.kind), t)
    == CountOf(rows, Tag(lib, column, groupBy), (k, t))
  }

  lemma TaggedStep(lib: Library, front: seq<Row>, last: Row, column: ColumnRule, groupBy: seq<ColumnRule>, k: string,
                   t: string)
    requires Groups(lib, front, column.name, groupBy).Some? && TaggedAlike(lib, front, column, groupBy, k, t)
    requires GroupOf(lib, last, groupBy).Some? && Cell(lib, last, column).Some?
    ensures Groups(lib, front + [last], column.name, groupBy).Some?
    ensures TaggedAlike(lib, front + [last], column, groupBy, k, t)
  {
    var group := GroupAt(Groups(lib, front, column.name, groupBy).value, k);
    GroupGrows(lib, front, last, column, groupBy, k);
    CountImages(front, last, Tag(lib, column, groupBy), (k, t));
    CountImages(group, last[column.name], TextOf(lib, column.kind), t);
    assert group + [] == group;
  }

  // A group's texts are the texts tagged with it.
  lemma {:induction false} GroupTexts(lib: Library, rows: seq<Row>, column: ColumnRule, groupBy: seq<ColumnRule>,
                            k: string, t: string)
    requires Groupable(lib, rows, column, groupBy) && Groups(lib, rows, column.name, groupBy).Some?
    ensures TaggedAlike(lib, rows, column, groupBy, k, t)
  {
    if rows != [] {
      var n := |rows| - 1;
      var front, last := rows[..n], rows[n];
      assert rows == front + [last] && last in rows;
      GroupsExist(lib, front, column, groupBy, k);
      GroupTexts(lib, front, column, groupBy, k, t);
      TaggedStep(lib, front, last, column, groupBy, k, t);
    }
  }

  lemma GroupsShareTexts(lib: Library, a: seq<Row>, b: seq<Row>, column: ColumnRule, groupBy: seq<ColumnRule>,
                         k: string)
    requires Groupable(lib, a, column, groupBy) && Groupable(lib, b, column, groupBy)
    requires multiset(Images(a, Tag(lib, column, groupBy))) == multiset(Images(b, Tag(lib, column, groupBy)))
    ensures Groups(lib, a, column.name, groupBy).Some? && Groups(lib, b, column.name, groupBy).Some?
    ensures var u := Groups(lib, a, column.name, groupBy).value;
            var w := Groups(lib, b, column.name, groupBy).value;
            && (k in u <==> k in w)
            && multiset(Images(GroupAt(u, k), TextOf(lib, column.kind)))
                == multiset(Images(GroupAt(w, k), TextOf(lib, column.kind)))
  {
    GroupsExist(lib, a, column, groupBy, k);
    GroupsExist(lib, b, column, groupBy, k);
    var u := GroupAt(Groups(lib, a, column.name, groupBy).value, k);
    var w := GroupAt(Groups(lib, b, column.name, groupBy).value, k);
    var s, t := Images(u, TextOf(lib, column.kind)), Images(w, TextOf(lib, column.kind));
    forall x ensures multiset(s)[x] == multiset(t)[x] {
      GroupTexts(lib, a, column, groupBy, k, x);
      GroupTexts(lib, b, column, groupBy, k, x);
    }
    assert multiset(s) == multiset(t);
    assert |multiset(s)| == |u| && |multiset(t)| == |w|;
  }

  // ---- one group's aggregate -------------------------------------------------------------------------

  lemma PlainIsTagged(lib: Library, v: Value, kind: CanonicalType)
    requires Plain(v, kind)
    ensures TextOf(lib, kind)(v) != "N"
  {
  }

  lemma NonNullGrows(values: seq<Value>, v: Value)
    ensures NonNull(values + [v]) == NonNull(values) + if v.Null? then [] else [v]
  {
  }

  lemma NullText(lib: Library, kind: CanonicalType)
    ensures TextOf(lib, kind)(Null) == "N"
  {
  }

  lemma NonNullCount(front: seq<Value>, v: Value, g: Value -> string, t: string)
    ensures CountOf(NonNull(front + [v]), g, t)
         == CountOf(NonNull(front), g, t) + if v.Null? || g(v) != t then 0 else 1
  {
    NonNullGrows(front, v);
    if v.Null? {
      assert NonNull(front + [v]) == NonNull(front);
    } else {
      CountImages(NonNull(front), v, g, t);
    }
  }

  lemma NonNullStep(front: seq<Value>, v: Value, g: Value -> string, t: string)
    requires g(Null) == "N" && (v != Null ==> g(v) != "N")
    requires CountOf(NonNull(front), g, t) == if t == "N" then 0 else CountOf(front, g, t)
    ensures CountOf(NonNull(front + [v]), g, t) == if t == "N" then 0 else CountOf(front + [v], g, t)
  {
    NonNullCount(front, v, g, t);
    CountImages(front, v, g, t);
  }

  // Leaving out the nulls leaves out the texts "N" and nothing else.
  lemma {:induction false} NonNullImages(values: seq<Value>, g: Value -> string, t: string)
    requires g(Null) == "N" && forall v :: v in values && v != Null ==> g(v) != "N"
    ensures CountOf(NonNull(values), g, t) == if t == "N" then 0 else CountOf(values, g, t)
  {
    if values != [] {
      var n := |values| - 1;
      assert values == values[..n] + [values[n]];
      NonNullImages(values[..n], g, t);
      NonNullStep(values[..n], values[n], g, t);
    }
  }

  lemma NonNullTexts(lib: Library, values: seq<Value>, kind: CanonicalType, t: string)
    requires AllPlain(NonNull(values), kind)
    ensures multiset(Images(NonNull(values), TextOf(lib, kind)))[t]
         == if t == "N" then 0 else multiset(Images(values, TextOf(lib, kind)))[t]
  {
    NullText(lib, kind);
    forall v | v in values && v != Null ensures TextOf(lib, kind)(v) != "N" {
      assert v in NonNull(values);
      PlainIsTagged(lib, v, kind);
    }
    NonNullImages(values, TextOf(lib, kind), t);
  }

  lemma NonNullShared(lib: Library, u: seq<Value>, w: seq<Value>, kind: CanonicalType)
    requires AllPlain(NonNull(u), kind) && AllPlain(NonNull(w), kind)
    requires multiset(Images(u, TextOf(lib, kind))) == multiset(Images(w, TextOf(lib, kind)))
    ensures multiset(Images(NonNull(u), TextOf(lib, kind))) == multiset(Images(NonNull(w), TextOf(lib, kind)))
    ensures NonNull(u) == [] <==> NonNull(w) == []
  {
    var s, t := Images(NonNull(u), TextOf(lib, kind)), Images(NonNull(w), TextOf(lib, kind));
    forall x ensures multiset(s)[x] == multiset(t)[x] {
      NonNullTexts(lib, u, kind, x);
      NonNullTexts(lib, w, kind, x);
    }
    assert multiset(s) == multiset(t);
    assert |multiset(s)| == |s| && |multiset(t)| == |t|;
  }

  // Units of 10^e shown by a text.
  function ShownUnits(e: int): string -> int {
    (t: string) => if Shown(t).Some? && InUnits(Shown(t).value, e) then Units(Shown(t).value, e) else 0
  }

  predicate Numeric(kind: CanonicalType) { kind.DecimalType? || kind.IntegerType? }

  lemma UnitsByText(lib: Library, v: Value, kind: CanonicalType, e: int)
    requires Plain(v, kind) && Numeric(kind) && InUnits(DecimalOf(v).value, e)
    ensures Shown(TextOf(lib, kind)(v)).Some? && InUnits(Shown(TextOf(lib, kind)(v)).value, e)
    ensures ShownUnits(e)(TextOf(lib, kind)(v)) == Units(DecimalOf(v).value, e)
  {
    TextShowsNumber(lib, v, kind);
    var t := Shown(TextOf(lib, kind)(v)).value;
    NumEqTransitive(t, DecimalOf(v).value, t);
    UnitsByValue(DecimalOf(v).value, t, e);
  }

  lemma UnitListByTexts(lib: Library, values: seq<Value>, kind: CanonicalType, e: int)
    requires AllPlain(values, kind) && Numeric(kind) && AllInUnits(values, e)
    ensures UnitList(values, e) == Images(Images(values, TextOf(lib, kind)), ShownUnits(e))
  {
    forall i | 0 <= i < |values|
      ensures Units(DecimalOf(values[i]).value, e) == ShownUnits(e)(TextOf(lib, kind)(values[i]))
    {
      assert values[i] in values;
      UnitsByText(lib, values[i], kind, e);
    }
  }

  lemma UnitsShared(lib: Library, u: seq<Value>, w: seq<Value>, kind: CanonicalType, e: int)
    requires AllPlain(u, kind) && AllPlain(w, kind) && Numeric(kind) && AllInUnits(u, e)
    requires multiset(Images(u, TextOf(lib, kind))) == multiset(Images(w, TextOf(lib, kind)))
    ensures AllInUnits(w, e)
  {
    forall y | y in w ensures DecimalOf(y).Some? && InUnits(DecimalOf(y).value, e) {
      var x := SameTextSomewhere(lib, w, u, kind, y);
      SharedUnit(x, y, kind, e);
    }
  }

  lemma SharedUnit(x: Value, y: Value, kind: CanonicalType, e: int)
    requires Plain(x, kind) && Plain(y, kind) && Numeric(kind) && Magnitude(x).Some? && Magnitude(y).Some?
    requires NumEq(Magnitude(y).value, Magnitude(x).value) && InUnits(Magnitude(x).value, e)
    ensures DecimalOf(y).Some? && InUnits(DecimalOf(y).value, e)
  {
    NumEqTransitive(Magnitude(x).value, Magnitude(y).value, Magnitude(x).value);
    NumEqTransitive(Magnitude(y).value, Magnitude(x).value, Magnitude(y).value);
    UnitsByValue(Magnitude(x).value, Magnitude(y).value, e);
  }

  lemma SmallTotal(d: Dec, e: int)
    requires InUnits(d, e) && Abs(Units(d, e)) < Pow10(PRECISION)
    ensures Significant(d) <= PRECISION
  {
    UnitsMean(d, e);
    SmallUnits(Units(d, e), e);
    SignificantByValue(d, AtUnit(Units(d, e), e));
  }

  lemma TotalText(a: Dec, b: Dec, e: int)
    requires InUnits(a, e) && InUnits(b, e) && Units(a, e) == Units(b, e) && Abs(Units(a, e)) < Pow10(PRECISION)
    ensures DecimalText.CanonicalText(a) == DecimalText.CanonicalText(b)
  {
    SmallTotal(a, e);
    SmallTotal(b, e);
    UnitsMean(a, e);
    UnitsMean(b, e);
    var m := AtUnit(Units(a, e), e);
    NumEqTransitive(b, m, b);
    NumEqTransitive(a, m, b);
    DecimalText.CanonicalTextIsFaithful(a, b);
  }

  /** Sums depend only on the texts summed, while they fit the context's digits. */
  lemma SumByTexts(lib: Library, u: seq<Value>, w: seq<Value>, kind: CanonicalType, e: int)
    requires AllPlain(u, kind) && AllPlain(w, kind) && Numeric(kind)
    requires AllInUnits(u, e) && MagnitudeOf(UnitList(u, e)) < Pow10(PRECISION)
    requires multiset(Images(u, TextOf(lib, kind))) == multiset(Images(w, TextOf(lib, kind)))
    ensures Total(u).Some? && Total(w).Some?
         && DecimalText.CanonicalText(Total(u).value) == DecimalText.CanonicalText(Total(w).value)
  {
    UnitsShared(lib, u, w, kind, e);
    UnitListByTexts(lib, u, kind, e);
    UnitListByTexts(lib, w, kind, e);
    ImagesPermute(Images(u, TextOf(lib, kind)), Images(w, TextOf(lib, kind)), ShownUnits(e));
    SumPermutes(UnitList(u, e), UnitList(w, e));
    TotalIsExact(u, e);
    TotalIsExact(w, e);
    SumBelowMagnitude(UnitList(u, e));
    TotalText(Total(u).value, Total(w).value, e);
  }

  // The sum of these values fits 28 digits, counted in units of 10^e.
  ghost predicate SumFits(values: seq<Value>, e: int) {
    AllInUnits(values, e) && MagnitudeOf(UnitList(values, e)) < Pow10(PRECISION)
  }

  lemma AggregateByTexts(lib: Library, u: seq<Value>, w: seq<Value>, operation: Operation, kind: CanonicalType, e: int)
    requires AllPlain(NonNull(u), kind) && AllPlain(NonNull(w), kind)
    requires operation.Sum? ==> Numeric(kind) && SumFits(NonNull(u), e)
    requires multiset(Images(u, TextOf(lib, kind))) == multiset(Images(w, TextOf(lib, kind)))
    ensures AggregateText(lib, u, operation, kind).Some?
    ensures AggregateText(lib, u, operation, kind) == AggregateText(lib, w, operation, kind)
  {
    NonNullShared(lib, u, w, kind);
    if NonNull(u) != [] {
      if operation.Sum? {
        SumByTexts(lib, NonNull(u), NonNull(w), kind, e);
      } else {
        ExtremeByTexts(lib, NonNull(u), NonNull(w), kind, operation.Maximum?);
      }
    }
  }

  /** The text of a sum reads back as the exact sum. */
  lemma SumMeans(lib: Library, values: seq<Value>, kind: CanonicalType, e: int)
    requires AllPlain(NonNull(values), kind) && Numeric(kind) && NonNull(values) != [] && SumFits(NonNull(values), e)
    ensures var t := AggregateText(lib, values, Sum, kind);
            && t.Some? && Shown(t.value).Some?
            && NumEq(Shown(t.value).value, AtUnit(SumOf(UnitList(NonNull(values), e)), e))
  {
    var units := UnitList(NonNull(values), e);
    TotalIsExact(NonNull(values), e);
    SumBelowMagnitude(units);
    var d := Total(NonNull(values)).value;
    SmallTotal(d, e);
    DecShown(d);
    UnitsMean(d, e);
    NumEqTransitive(Shown("M:" + DecimalText.CanonicalText(d)).value, d, AtUnit(SumOf(units), e));
  }

  /** The text of a minimum or maximum is that of one of the values, which none is beyond. */
  lemma ExtremeMeans(lib: Library, values: seq<Value>, kind: CanonicalType, largest: bool)
    requires AllPlain(NonNull(values), kind) && NonNull(values) != []
    ensures forall v :: v in NonNull(values) ==> Magnitude(v).Some?
    ensures var t := AggregateText(lib, values, if largest then Maximum else Minimum, kind);
            exists x :: x in NonNull(values) && Magnitude(x).Some? && Bounds(NonNull(values), x, largest)
                        && t.Some? && Canonicalize(lib, x, kind) == t
  {
    ExtremeBounds(NonNull(values), largest, kind);
    ExtremeText(lib, values, kind, largest);
    TextIs(lib, Extreme(NonNull(values), largest).value, kind);
  }

  lemma TextIs(lib: Library, v: Value, kind: CanonicalType)
    requires Plain(v, kind)
    ensures Canonicalize(lib, v, kind).Some?
  {
    TextShowsNumber(lib, v, kind);
  }

  lemma ExtremeText(lib: Library, values: seq<Value>, kind: CanonicalType, largest: bool)
    requires NonNull(values) != [] && Extreme(NonNull(values), largest).Some?
    ensures AggregateText(lib, values, if largest then Maximum else Minimum, kind)
         == Canonicalize(lib, Extreme(NonNull(values), largest).value, kind)
  {
  }

  // ---- aggregates --------------------------------------------------------------------------------------

  // Every value of the column is null or plain.
  ghost predicate PlainColumn(rows: seq<Row>, column: ColumnRule) {
    forall r: Row :: r in rows && column.name in r ==> r[column.name].Null? || Plain(r[column.name], column.kind)
  }

  // What an aggregate needs of one side's rows: a numeric column whose sums, per group, fit
  // 28 digits in units of 10^e; nothing for minima and maxima.
  ghost predicate Summable(lib: Library, rows: seq<Row>, operation: Operation, column: ColumnRule,
                           groupBy: seq<ColumnRule>, e: int) {
    operation.Sum? ==>
      && Numeric(column.kind)
      && var groups := Groups(lib, rows, column.name, groupBy);
         groups.Some? ==> forall k :: k in groups.value ==> SumFits(NonNull(groups.value[k]), e)
  }

  lemma TagShared(lib: Library, r: Row, q: Row, columns: seq<ColumnRule>, column: ColumnRule, groupBy: seq<ColumnRule>)
    requires Cells(lib, r, columns).Some? && Cells(lib, r, columns) == Cells(lib, q, columns)
    requires column in columns && forall c :: c in groupBy ==> c in columns
    ensures GroupOf(lib, r, groupBy).Some? && Cell(lib, r, column).Some?
    ensures Tag(lib, column, groupBy)(r) == Tag(lib, column, groupBy)(q)
  {
    DisplayShared(lib, r, q, columns, groupBy);
    var i :| 0 <= i < |columns| && columns[i] == column;
    assert Cell(lib, r, columns[i]) == Some(Cells(lib, r, columns).value[i]);
    assert Cell(lib, q, columns[i]) == Some(Cells(lib, q, columns).value[i]);
  }

  // Both sides have the group, with one aggregate, or neither has it.
  ghost predicate GroupAgrees(lib: Library, a: seq<Row>, b: seq<Row>, operation: Operation, column: ColumnRule,
                              groupBy: seq<ColumnRule>, k: string)
    requires Groups(lib, a, column.name, groupBy).Some? && Groups(lib, b, column.name, groupBy).Some?
  {
    var u, w := Groups(lib, a, column.name, groupBy).value, Groups(lib, b, column.name, groupBy).value;
    && (k in u <==> k in w)
    && (k in u ==> SameText(lib, u[k], w[k], operation, column.kind))
  }

  lemma GroupShared(lib: Library, a: seq<Row>, b: seq<Row>, operation: Operation, column: ColumnRule,
                    groupBy: seq<ColumnRule>, e: int, k: string)
    requires Groupable(lib, a, column, groupBy) && Groupable(lib, b, column, groupBy)
    requires multiset(Images(a, Tag(lib, column, groupBy))) == multiset(Images(b, Tag(lib, column, groupBy)))
    requires PlainColumn(a, column) && PlainColumn(b, column) && Summable(lib, a, operation, column, groupBy, e)
    ensures Groups(lib, a, column.name, groupBy).Some? && Groups(lib, b, column.name, groupBy).Some?
    ensures GroupAgrees(lib, a, b, operation, column, groupBy, k)
  {
    GroupsShareTexts(lib, a, b, column, groupBy, k);
    GroupsExist(lib, a, column, groupBy, k);
    GroupsExist(lib, b, column, groupBy, k);
    var u, w := Groups(lib, a, column.name, groupBy).value, Groups(lib, b, column.name, groupBy).value;
    if k in u {
      AggregateByTexts(lib, GroupAt(u, k), GroupAt(w, k), operation, column.kind, e);
    }
  }

  /** Agreeing rows have equal aggregates: minima and maxima over numbers, dates and
      timestamps, and sums while they fit 28 digits. */
  lemma AgreeingAggregates(lib: Library, a: seq<Row>, b: seq<Row>, columns: seq<ColumnRule>, keys: seq<ColumnRule>,
                           operation: Operation, column: ColumnRule, groupBy: seq<ColumnRule>, e: int)
    requires Agreeing(lib, a, b, columns, keys) && column in columns && forall c :: c in groupBy ==> c in columns
    requires PlainColumn(a, column) && PlainColumn(b, column) && Summable(lib, a, operation, column, groupBy, e)
    ensures Aggregates(lib, a, operation, column, groupBy).Some?
    ensures Aggregates(lib, a, operation, column, groupBy) == Aggregates(lib, b, operation, column, groupBy)
  {
    TagsAgree(lib, a, b, columns, keys, column, groupBy);
    GroupsExist(lib, a, column, groupBy, "");
    GroupsExist(lib, b, column, groupBy, "");
    forall k
      ensures GroupAgrees(lib, a, b, operation, column, groupBy, k)
    {
      GroupShared(lib, a, b, operation, column, groupBy, e, k);
    }
    AggregatesByGroup(lib, a, b, operation, column, groupBy);
  }

  lemma TagsAgree(lib: Library, a: seq<Row>, b: seq<Row>, columns: seq<ColumnRule>, keys: seq<ColumnRule>,
                  column: ColumnRule, groupBy: seq<ColumnRule>)
    requires Agreeing(lib, a, b, columns, keys) && column in columns && forall c :: c in groupBy ==> c in columns
    ensures Groupable(lib, a, column, groupBy) && Groupable(lib, b, column, groupBy)
    ensures multiset(Images(a, Tag(lib, column, groupBy))) == multiset(Images(b, Tag(lib, column, groupBy)))
  {
    AgreeingReads(lib, a, b, columns, keys);
    forall r | r in a || r in b ensures GroupOf(lib, r, groupBy).Some? && Cell(lib, r, column).Some? {
      TagShared(lib, r, r, columns, column, groupBy);
    }
    var g := Tag(lib, column, groupBy);
    forall r, q | Cells(lib, r, columns).Some? && Cells(lib, r, columns) == Cells(lib, q, columns)
      ensures g(r) == g(q)
    {
      TagShared(lib, r, q, columns, column, groupBy);
    }
    SharedImages(lib, a, b, columns, keys, g);
  }

  lemma AggregatesByGroup(lib: Library, a: seq<Row>, b: seq<Row>, operation: Operation, column: ColumnRule,
                          groupBy: seq<ColumnRule>)
    requires Groups(lib, a, column.name, groupBy).Some? && Groups(lib, b, column.name, groupBy).Some?
    requires forall k :: GroupAgrees(lib, a, b, operation, column, groupBy, k)
    ensures Aggregates(lib, a, operation, column, groupBy).Some?
    ensures Aggregates(lib, a, operation, column, groupBy) == Aggregates(lib, b, operation, column, groupBy)
  {
    var u, w := Groups(lib, a, column.name, groupBy).value, Groups(lib, b, column.name, groupBy).value;
    forall k
      ensures k in u <==> k in w
      ensures k in u ==> SameText(lib, u[k], w[k], operation, column.kind)
    {
      assert GroupAgrees(lib, a, b, operation, column, groupBy, k);
    }
    GroupsTextedAlike(lib, u, w, operation, column.kind);
  }

  ghost predicate SameText(lib: Library, u: seq<Value>, w: seq<Value>, operation: Operation, kind: CanonicalType) {
    AggregateText(lib, u, operation, kind).Some?
        && AggregateText(lib, u, operation, kind) == AggregateText(lib, w, operation, kind)
  }

  lemma GroupsTextedAlike(lib: Library, u: map<string, seq<Value>>, w: map<string, seq<Value>>, operation: Operation,
                          kind: CanonicalType)
    requires u.Keys == w.Keys && forall k :: k in u ==> SameText(lib, u[k], w[k], operation, kind)
    ensures TextsOfGroups(lib, u, operation, kind).Some?
    ensures TextsOfGroups(lib, u, operation, kind) == TextsOfGroups(lib, w, operation, kind)
  {
    forall k | k in u ensures AggregateText(lib, u[k], operation, kind).Some? {
      assert SameText(lib, u[k], w[k], operation, kind);
    }
    var texts := map k | k in u :: AggregateText(lib, u[k], operation, kind).value;
    forall k | k in texts ensures AggregateText(lib, w[k], operation, kind) == Some(texts[k]) {
      assert SameText(lib, u[k], w[k], operation, kind);
    }
    AllTexts(lib, u, operation, kind, texts);
    AllTexts(lib, w, operation, kind, texts);
  }
}
