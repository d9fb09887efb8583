/** What grouped counts and grouped aggregates say: which rows a group holds, and what the
    checks over them decide. */
module GroupTheorems {
  import opened Models
  import opened Canonical
  import CellTheorems
  import Redundancy
  import opened Reconciliation
  import opened Gate

  // ---- display keys ----------------------------------------------------------------------------

  /** The display key over one column is the canonical text of its cell. */
  lemma OneColumnKey(lib: Library, r: Row, c: ColumnRule)
    ensures DisplayKey(lib, r, [c]) == Cell(lib, r, c)
  {
    assert [c][1..] == [] && [c][0] == c && Cells(lib, r, []) == Some([]);
    if Cell(lib, r, c).Some? { assert [Cell(lib, r, c).value] + [] == [Cell(lib, r, c).value]; }
  }

  ghost predicate WithoutBars(texts: seq<string>) { forall t :: t in texts ==> '|' !in t }

  /** Keys over several columns are told apart as long as no text holds a bar. */
  lemma {:induction false} JoinDecides(a: seq<string>, b: seq<string>)
    requires |a| == |b| && WithoutBars(a) && WithoutBars(b)
    ensures Join(a) == Join(b) <==> a == b
  {
    if |a| > 1 && Join(a) == Join(b) {
      UpToMark('|', a[0], b[0], Join(a[1..]), Join(b[1..]));
      JoinDecides(a[1..], b[1..]);
      assert a == [a[0]] + a[1..] && b == [b[0]] + b[1..];
    } else if |a| == 1 {
      assert a == [a[0]] && b == [b[0]];
    }
  }

  // One text per column that a display key cannot mistake for others: a single text, or texts without bars.
  ghost predicate Clear(columns: seq<ColumnRule>, texts: seq<string>) {
    |texts| == |columns| && (|columns| == 1 || WithoutBars(texts))
  }

  ghost predicate ClearRow(lib: Library, r: Row, columns: seq<ColumnRule>) {
    Cells(lib, r, columns).Some? && Clear(columns, Cells(lib, r, columns).value)
  }

  ghost predicate ClearRows(lib: Library, rows: seq<Row>, columns: seq<ColumnRule>) {
    forall r :: r in rows ==> ClearRow(lib, r, columns)
  }

  /** The display key of such a row tells its texts. */
  lemma KeyTellsTexts(lib: Library, r: Row, columns: seq<ColumnRule>, texts: seq<string>)
    requires ClearRow(lib, r, columns) && Clear(columns, texts)
    ensures DisplayKey(lib, r, columns) == Some(Join(texts)) <==> Cells(lib, r, columns) == Some(texts)
  {
    var own := Cells(lib, r, columns).value;
    if |columns| == 1 {
      assert own == [own[0]] && texts == [texts[0]];
    } else {
      JoinDecides(own, texts);
    }
  }

  /** Rows are counted together, and aggregated together, exactly when they hold one value in every
      grouping column - for one column always, for several if no text holds a bar. */
  lemma GroupedTogetherExactlyWhen(lib: Library, r: Row, q: Row, columns: seq<ColumnRule>)
    requires ClearRow(lib, r, columns) && ClearRow(lib, q, columns)
    ensures DisplayKey(lib, r, columns) == DisplayKey(lib, q, columns) <==> CellTheorems.SameRow(lib, r, q, columns)
  {
    KeyTellsTexts(lib, r, columns, Cells(lib, q, columns).value);
    CellTheorems.RowDecides(lib, r, q, columns);
  }

  // ---- counts ------------------------------------------------------------------------------------

  // The rows whose cells have these canonical texts, in order.
  function RowsWith(lib: Library, rows: seq<Row>, columns: seq<ColumnRule>, texts: seq<string>): (found: seq<Row>)
    ensures forall r :: r in found <==> r in rows && Cells(lib, r, columns) == Some(texts)
  {
    if rows == [] then []
    else
      var last := rows[|rows| - 1];
      var found := RowsWith(lib, rows[..|rows| - 1], columns, texts);
      if Cells(lib, last, columns) == Some(texts) then found + [last] else found
  }

  lemma RowsWithStep(lib: Library, front: seq<Row>, last: Row, columns: seq<ColumnRule>, texts: seq<string>)
    ensures RowsWith(lib, front + [last], columns, texts)
         == RowsWith(lib, front, columns, texts) + if Cells(lib, last, columns) == Some(texts) then [last] else []
  {
    assert (front + [last])[..|front|] == front;
  }

  lemma {:induction false} KeysCountRows(lib: Library, rows: seq<Row>, columns: seq<ColumnRule>, texts: seq<string>)
    requires ClearRows(lib, rows, columns) && Clear(columns, texts)
    ensures multiset(Images(rows, Redundancy.Display(lib, columns)))[Join(texts)]
         == |RowsWith(lib, rows, columns, texts)|
  {
    if rows != [] {
      var front, last := rows[..|rows| - 1], rows[|rows| - 1];
      assert rows == front + [last] && last in rows && ClearRow(lib, last, columns);
      KeysCountRows(lib, front, columns, texts);
      OneMoreKey(lib, front, last, columns, texts);
    }
  }

  lemma OneMoreKey(lib: Library, front: seq<Row>, last: Row, columns: seq<ColumnRule>, texts: seq<string>)
    requires ClearRow(lib, last, columns) && Clear(columns, texts)
    requires multiset(Images(front, Redundancy.Display(lib, columns)))[Join(texts)]
          == |RowsWith(lib, front, columns, texts)|
    ensures multiset(Images(front + [last], Redundancy.Display(lib, columns)))[Join(texts)]
         == |RowsWith(lib, front + [last], columns, texts)|
  {
    var display := Redundancy.Display(lib, columns);
    RowsWithStep(lib, front, last, columns, texts);
    DisplayTells(lib, last, columns, texts);
    ImagesStep(front, last, display);
    OneMore(Images(front, display), display(last), Join(texts));
  }

  lemma DisplayTells(lib: Library, r: Row, columns: seq<ColumnRule>, texts: seq<string>)
    requires ClearRow(lib, r, columns) && Clear(columns, texts)
    ensures Redundancy.Display(lib, columns)(r) == Join(texts) <==> Cells(lib, r, columns) == Some(texts)
  {
    KeyTellsTexts(lib, r, columns, texts);
  }

  lemma ImagesStep<T, X>(front: seq<T>, last: T, g: T -> X)
    ensures Images(front + [last], g) == Images(front, g) + [g(last)]
  {
  }

  lemma OneMore<T>(s: seq<T>, x: T, y: T)
    ensures multiset(s + [x])[y] == multiset(s)[y] + if x == y then 1 else 0
  {
  }

  // How many rows have these texts.
  ghost function Occurrences(lib: Library, rows: seq<Row>, columns: seq<ColumnRule>, texts: seq<string>): nat {
    |RowsWith(lib, rows, columns, texts)|
  }

  // Under their display key, how many rows have these texts, if any.
  ghost predicate Counted(lib: Library, rows: seq<Row>, columns: seq<ColumnRule>, counts: map<string, int>,
                          texts: seq<string>) {
    var n := Occurrences(lib, rows, columns, texts);
    (Join(texts) in counts <==> n != 0) && (n != 0 ==> counts[Join(texts)] == n)
  }

  // Some row has this display key.
  ghost predicate Shown(lib: Library, rows: seq<Row>, columns: seq<ColumnRule>, key: string) {
    exists r :: r in rows && DisplayKey(lib, r, columns) == Some(key)
  }

  // All texts are counted, and nothing else.
  ghost predicate CountsRows(lib: Library, rows: seq<Row>, columns: seq<ColumnRule>, counts: map<string, int>) {
    && (forall texts :: Clear(columns, texts) ==> Counted(lib, rows, columns, counts, texts))
    && (forall key :: key in counts ==> Shown(lib, rows, columns, key))
  }

  /** Grouped counts exist exactly when every cell has a canonical text, and then say of all texts,
      by column, how many rows have them. */
  lemma CountsMean(lib: Library, rows: seq<Row>, columns: seq<ColumnRule>)
    ensures CountsOf(lib, rows, columns).Some? <==> forall r :: r in rows ==> Cells(lib, r, columns).Some?
    ensures CountsOf(lib, rows, columns).Some? && ClearRows(lib, rows, columns) ==>
              CountsRows(lib, rows, columns, CountsOf(lib, rows, columns).value)
  {
    CountsExist(lib, rows, columns);
    if CountsOf(lib, rows, columns).Some? && ClearRows(lib, rows, columns) { CountsCount(lib, rows, columns); }
  }

  lemma CountsExist(lib: Library, rows: seq<Row>, columns: seq<ColumnRule>)
    ensures CountsOf(lib, rows, columns).Some? <==> forall r :: r in rows ==> Cells(lib, r, columns).Some?
  {
    if CountsOf(lib, rows, columns).Some? {
      forall r | r in rows ensures Cells(lib, r, columns).Some? {
        var i :| 0 <= i < |rows| && rows[i] == r;
        assert DisplayKey(lib, rows[i], columns).Some?;
      }
    } else {
      var i :| 0 <= i < |rows| && DisplayKey(lib, rows[i], columns).None?;
      assert rows[i] in rows;
    }
  }

  lemma CountsCount(lib: Library, rows: seq<Row>, columns: seq<ColumnRule>)
    requires CountsOf(lib, rows, columns).Some? && ClearRows(lib, rows, columns)
    ensures CountsRows(lib, rows, columns, CountsOf(lib, rows, columns).value)
  {
    var keys := Images(rows, Redundancy.Display(lib, columns));
    Redundancy.CountsTally(lib, rows, columns);
    forall texts | Clear(columns, texts) ensures Counted(lib, rows, columns, Tally(keys), texts) {
      TextsCounted(lib, rows, columns, keys, texts);
    }
    forall key | key in Tally(keys) ensures Shown(lib, rows, columns, key) { KeyShown(lib, rows, columns, keys, key); }
  }

  lemma TextsCounted(lib: Library, rows: seq<Row>, columns: seq<ColumnRule>, keys: seq<string>, texts: seq<string>)
    requires ClearRows(lib, rows, columns) && Clear(columns, texts)
    requires keys == Images(rows, Redundancy.Display(lib, columns))
    ensures Counted(lib, rows, columns, Tally(keys), texts)
  {
    KeysCountRows(lib, rows, columns, texts);
    assert Join(texts) in keys <==> Join(texts) in multiset(keys);
  }

  lemma KeyShown(lib: Library, rows: seq<Row>, columns: seq<ColumnRule>, keys: seq<string>, key: string)
    requires ClearRows(lib, rows, columns) && keys == Images(rows, Redundancy.Display(lib, columns)) && key in keys
    ensures Shown(lib, rows, columns, key)
  {
    var i :| 0 <= i < |keys| && keys[i] == key;
    var r := rows[i];
    assert r in rows && ClearRow(lib, r, columns) && keys[i] == Redundancy.Display(lib, columns)(r);
    assert DisplayKey(lib, r, columns) == Some(key);
  }

  // All texts occur equally often on both sides.
  ghost predicate EquallyOften(lib: Library, a: seq<Row>, b: seq<Row>, columns: seq<ColumnRule>) {
    forall texts :: Occurrences(lib, a, columns, texts) == Occurrences(lib, b, columns, texts)
  }

  /** A partition check passes exactly when every cell on both sides has a canonical text and all
      texts, by column, occur equally often on both sides - for one column always, for several if
      no text holds a bar. */
  lemma PartitionPassesExactlyWhen(lib: Library, entity: EntityRule, a: seq<Row>, b: seq<Row>, rule: PartitionRule,
                                   columns: seq<ColumnRule>)
    requires Resolve(entity.columns, rule.columns) == Some(columns)
    requires |columns| == 1 || (ClearRows(lib, a, columns) && ClearRows(lib, b, columns))
    ensures PartitionCheck(lib, entity, a, b, rule).Some? && PartitionCheck(lib, entity, a, b, rule).value.passed
       <==> && (forall r :: r in a || r in b ==> Cells(lib, r, columns).Some?)
            && EquallyOften(lib, a, b, columns)
  {
    CountsMean(lib, a, columns);
    CountsMean(lib, b, columns);
    if CountsOf(lib, a, columns).Some? && CountsOf(lib, b, columns).Some? {
      assert ClearRows(lib, a, columns) && ClearRows(lib, b, columns);
      SameCounts(lib, a, b, columns, CountsOf(lib, a, columns).value, CountsOf(lib, b, columns).value);
    }
    PartitionPasses(lib, entity, a, b, rule, columns);
  }

  lemma PartitionPasses(lib: Library, entity: EntityRule, a: seq<Row>, b: seq<Row>, rule: PartitionRule,
                        columns: seq<ColumnRule>)
    requires Resolve(entity.columns, rule.columns) == Some(columns)
    ensures PartitionCheck(lib, entity, a, b, rule).Some? && PartitionCheck(lib, entity, a, b, rule).value.passed
       <==> CountsOf(lib, a, columns).Some? && CountsOf(lib, a, columns) == CountsOf(lib, b, columns)
  {
  }

  lemma UnclearNeverOccurs(lib: Library, rows: seq<Row>, columns: seq<ColumnRule>, texts: seq<string>)
    requires ClearRows(lib, rows, columns)
    ensures Clear(columns, texts) || Occurrences(lib, rows, columns, texts) == 0
  {
    if RowsWith(lib, rows, columns, texts) != [] {
      var r := RowsWith(lib, rows, columns, texts)[0];
      assert r in RowsWith(lib, rows, columns, texts) && r in rows && ClearRow(lib, r, columns);
    }
  }

  lemma SameCounts(lib: Library, a: seq<Row>, b: seq<Row>, columns: seq<ColumnRule>, m: map<string, int>,
                   n: map<string, int>)
    requires CountsRows(lib, a, columns, m) && CountsRows(lib, b, columns, n)
    requires ClearRows(lib, a, columns) && ClearRows(lib, b, columns)
    ensures m == n <==> EquallyOften(lib, a, b, columns)
  {
    if m == n { SameCountsMean(lib, a, b, columns, m); }
    if EquallyOften(lib, a, b, columns) { EqualCounts(lib, a, b, columns, m, n); }
  }

  lemma SameCountsMean(lib: Library, a: seq<Row>, b: seq<Row>, columns: seq<ColumnRule>, counts: map<string, int>)
    requires CountsRows(lib, a, columns, counts) && CountsRows(lib, b, columns, counts)
    requires ClearRows(lib, a, columns) && ClearRows(lib, b, columns)
    ensures EquallyOften(lib, a, b, columns)
  {
    forall texts ensures Occurrences(lib, a, columns, texts) == Occurrences(lib, b, columns, texts) {
      UnclearNeverOccurs(lib, a, columns, texts);
      UnclearNeverOccurs(lib, b, columns, texts);
      if Clear(columns, texts) {
        assert Counted(lib, a, columns, counts, texts) && Counted(lib, b, columns, counts, texts);
      }
    }
  }

  lemma EqualCounts(lib: Library, a: seq<Row>, b: seq<Row>, columns: seq<ColumnRule>, m: map<string, int>,
                    n: map<string, int>)
    requires CountsRows(lib, a, columns, m) && CountsRows(lib, b, columns, n)
    requires ClearRows(lib, a, columns) && ClearRows(lib, b, columns)
    requires EquallyOften(lib, a, b, columns)
    ensures m == n
  {
    forall key | key in m ensures key in n && n[key] == m[key] { CountCarries(lib, a, b, columns, m, n, key); }
    forall key | key in n ensures key in m { CountCarries(lib, b, a, columns, n, m, key); }
  }

  lemma CountCarries(lib: Library, a: seq<Row>, b: seq<Row>, columns: seq<ColumnRule>, m: map<string, int>,
                     n: map<string, int>, key: string)
    requires CountsRows(lib, a, columns, m) && CountsRows(lib, b, columns, n) && ClearRows(lib, a, columns)
    requires EquallyOften(lib, a, b, columns) || EquallyOften(lib, b, a, columns)
    requires key in m
    ensures key in n && n[key] == m[key]
  {
    assert Shown(lib, a, columns, key);
    var r :| r in a && DisplayKey(lib, r, columns) == Some(key);
    var texts := Cells(lib, r, columns).value;
    assert ClearRow(lib, r, columns) && Join(texts) == key;
    assert Counted(lib, a, columns, m, texts) && Counted(lib, b, columns, n, texts);
    assert Occurrences(lib, a, columns, texts) == Occurrences(lib, b, columns, texts);
  }

  // ---- groups of an aggregate ----------------------------------------------------------------------

  // The values of a column, row by row.
  function ValuesOf(rows: seq<Row>, column: string): (values: seq<Value>)
    requires forall r :: r in rows ==> column in r
    ensures |values| == |rows| && forall i :: 0 <= i < |rows| ==> values[i] == rows[i][column]
  {
    seq(|rows|, i requires 0 <= i < |rows| => rows[i][column])
  }

  ghost predicate HoldsItsRows(lib: Library, rows: seq<Row>, column: string, columns: seq<ColumnRule>,
                               groups: map<string, seq<Value>>, texts: seq<string>)
    requires forall r :: r in rows ==> column in r
  {
    && (Join(texts) in groups <==> RowsWith(lib, rows, columns, texts) != [])
    && (Join(texts) in groups ==> groups[Join(texts)] == ValuesOf(RowsWith(lib, rows, columns, texts), column))
  }

  /** The group of some texts, by grouping column, holds the aggregated column's values of exactly
      the rows with those texts. */
  lemma {:induction false} GroupsHoldTheirRows(lib: Library, rows: seq<Row>, column: string, columns: seq<ColumnRule>,
                                               texts: seq<string>)
    requires columns != [] && (forall r :: r in rows ==> column in r)
    requires ClearRows(lib, rows, columns) && Clear(columns, texts)
    ensures Groups(lib, rows, column, columns).Some?
    ensures HoldsItsRows(lib, rows, column, columns, Groups(lib, rows, column, columns).value, texts)
  {
    if rows != [] {
      var front, last := rows[..|rows| - 1], rows[|rows| - 1];
      assert rows == front + [last] && last in rows && ClearRow(lib, last, columns);
      GroupsHoldTheirRows(lib, front, column, columns, texts);
      KeyTellsTexts(lib, last, columns, texts);
      RowsWithStep(lib, front, last, columns, texts);
      if Cells(lib, last, columns) == Some(texts) {
        assert ValuesOf(RowsWith(lib, rows, columns, texts), column)
            == ValuesOf(RowsWith(lib, front, columns, texts), column) + [last[column]];
      }
    }
  }

  /** Without grouping columns there is one group, of all the values. */
  lemma {:induction false} OneGroupOfAll(lib: Library, rows: seq<Row>, column: string)
    requires rows != [] && forall r :: r in rows ==> column in r
    ensures Groups(lib, rows, column, []) == Some(map["__all__" := ValuesOf(rows, column)])
  {
    var front, last := rows[..|rows| - 1], rows[|rows| - 1];
    assert rows == front + [last];
    if front == [] {
      assert Groups(lib, front, column, []) == Some(map[]);
      assert ValuesOf(rows, column) == [] + [last[column]];
      assert map[]["__all__" := ValuesOf(rows, column)] == map["__all__" := ValuesOf(rows, column)];
    } else {
      OneGroupOfAll(lib, front, column);
      assert ValuesOf(rows, column) == ValuesOf(front, column) + [last[column]];
      assert map["__all__" := ValuesOf(front, column)]["__all__" := ValuesOf(rows, column)]
          == map["__all__" := ValuesOf(rows, column)];
    }
  }

  /** The aggregate reported for some texts is the aggregate of the values of exactly the rows with
      those texts, and texts no row has are not reported. */
  lemma AggregatesMean(lib: Library, rows: seq<Row>, operation: Operation, column: ColumnRule, columns: seq<ColumnRule>,
                       texts: seq<string>)
    requires columns != [] && (forall r :: r in rows ==> column.name in r)
    requires ClearRows(lib, rows, columns) && Clear(columns, texts)
    requires Aggregates(lib, rows, operation, column, columns).Some?
    ensures var reported, found := Aggregates(lib, rows, operation, column, columns).value,
                                   RowsWith(lib, rows, columns, texts);
            && (Join(texts) in reported <==> found != [])
            && (found != [] ==>
                  AggregateText(lib, ValuesOf(found, column.name), operation, column.kind)
                  == Some(reported[Join(texts)]))
  {
    GroupsHoldTheirRows(lib, rows, column.name, columns, texts);
  }

  /** NULLs alone have the aggregate NULL, and nothing else has it. */
  lemma OnlyNullsAggregateToNull(lib: Library, values: seq<Value>, operation: Operation, kind: CanonicalType)
    ensures AggregateText(lib, values, operation, kind) == Some("N") <==> forall v :: v in values ==> v.Null?
  {
    if NonNull(values) == [] {
      forall v | v in values ensures v.Null? { assert v.Null? || v in NonNull(values); }
    } else {
      assert NonNull(values)[0] in NonNull(values);
      PresentAggregate(lib, values, operation, kind);
    }
  }

  lemma PresentAggregate(lib: Library, values: seq<Value>, operation: Operation, kind: CanonicalType)
    requires NonNull(values) != []
    ensures AggregateText(lib, values, operation, kind) != Some("N")
  {
    if !operation.Sum? {
      var largest := operation.Maximum?;
      ExtremeIsOneOf(NonNull(values), largest);
      if Extreme(NonNull(values), largest).Some? {
        CellTheorems.TextExistsExactlyWhen(lib, Extreme(NonNull(values), largest).value, kind);
        Redundancy.ExtremeText(lib, values, kind, largest);
      }
    }
  }

  lemma {:induction false} ExtremeIsOneOf(values: seq<Value>, largest: bool)
    requires values != []
    ensures Extreme(values, largest).Some? ==> Extreme(values, largest).value in values
  {
    if |values| > 1 { ExtremeIsOneOf(values[..|values| - 1], largest); }
  }
}
