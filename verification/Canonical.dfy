/** Canonical texts, checksums, grouped counts and aggregates of fetched rows
    (src/millrace/validation/canonical.py). Every None stands for a raised exception. */
module Canonical {
  import opened Models
  import Orders
  import opened Bytes
  import opened Decimals
  import DecimalText
  import DebeziumDecimal

  datatype CanonicalType = TextType | DateType | TimestampType | DecimalType | BooleanType | IntegerType

  // A fetched cell. Dates count days, timestamps microseconds in UTC; `aware` is false for a
  // timestamp without a time zone.
  datatype Value =
    | Null
    | Text(text: string)
    | Date(day: int)
    | Timestamp(micros: int, aware: bool)
    | Decimal(dec: Dec)
    | NonFinite
    | Boolean(flag: bool)
    | Integer(number: int)

  type Row = map<string, Value>

  datatype ColumnRule = ColumnRule(name: string, kind: CanonicalType)
  datatype PartitionRule = PartitionRule(name: string, columns: seq<string>)
  datatype Operation = Sum | Minimum | Maximum
  datatype AggregateRule = AggregateRule(name: string, operation: Operation, column: string, groupBy: seq<string>)

  // Library functions taken as given: NFC, UTF-8 and SHA-256 (as a hex text).
  datatype Library = Library(nfc: string -> string, utf8: string -> seq<Byte>, sha256: seq<Byte> -> string)

  // ---- canonicalize -------------------------------------------------------------------------

  function IntText(n: int): string { if n < 0 then "-" + DecimalText.NatText(-n) else DecimalText.NatText(n) }

  // Decimal(str(value)): None for what Decimal rejects, and for non-finite values.
  function DecimalOf(v: Value): Option<Dec> {
    match v
    case Decimal(d) => Some(d)
    case Integer(n) => Some(DebeziumDecimal.OfInt(n))
    case Text(s) => DecimalText.ReadFixed(s)
    case _ => None
  }

  function Canonicalize(lib: Library, v: Value, kind: CanonicalType): Option<string> {
    if v.Null? then Some("N")
    else
      match kind
      case TextType => if v.Text? then Some("S:" + lib.nfc(v.text)) else None
      case DateType => if v.Date? then Some("D:" + IntText(v.day)) else None
      case TimestampType => if v.Timestamp? && v.aware then Some("T:" + IntText(v.micros)) else None
      case DecimalType =>
        if DecimalOf(v).Some? then Some("M:" + DecimalText.CanonicalText(DecimalOf(v).value)) else None
      case BooleanType => if v.Boolean? then Some(if v.flag then "B:1" else "B:0") else None
      case IntegerType => if v.Integer? then Some("I:" + IntText(v.number)) else None
  }

  // canonicalize(row[column.name], column.canonical_type)
  function Cell(lib: Library, row: Row, column: ColumnRule): Option<string> {
    if column.name in row then Canonicalize(lib, row[column.name], column.kind) else None
  }

  function Cells(lib: Library, row: Row, columns: seq<ColumnRule>): (r: Option<seq<string>>)
    ensures r.Some? ==> |r.value| == |columns|
    ensures r.Some? ==> forall i :: 0 <= i < |columns| ==> Cell(lib, row, columns[i]) == Some(r.value[i])
    ensures r.None? ==> exists i :: 0 <= i < |columns| && Cell(lib, row, columns[i]).None?
  {
    if columns == [] then Some([])
    else
      var rest := Cells(lib, row, columns[1..]);
      var first := Cell(lib, row, columns[0]);
      if first.None? || rest.None? then None else Some([first.value] + rest.value)
  }

  // ---- sorting by canonical key -----------------------------------------------------------------

  datatype KeyedRow = KeyedRow(key: seq<string>, row: Row)

  // _row_key for every row
  function WithKeys(lib: Library, rows: seq<Row>, keys: seq<ColumnRule>): (r: Option<seq<KeyedRow>>)
    ensures r.Some? ==> |r.value| == |rows|
    ensures r.Some? ==> forall i :: 0 <= i < |rows| ==>
              r.value[i].row == rows[i] && Cells(lib, rows[i], keys) == Some(r.value[i].key)
    ensures r.None? ==> exists i :: 0 <= i < |rows| && Cells(lib, rows[i], keys).None?
  {
    if rows == [] then Some([])
    else
      var front := WithKeys(lib, rows[..|rows| - 1], keys);
      var last := Cells(lib, rows[|rows| - 1], keys);
      if front.None? || last.None? then None else Some(front.value + [KeyedRow(last.value, rows[|rows| - 1])])
  }

  // Into a sorted sequence, behind everything that is not greater.
  function Insert(x: KeyedRow, s: seq<KeyedRow>): seq<KeyedRow> {
    if s != [] && Orders.TupleBelow(x.key, s[|s| - 1].key) then Insert(x, s[..|s| - 1]) + [s[|s| - 1]] else s + [x]
  }

  // sorted(rows, key=...), which is stable
  function Sorted(s: seq<KeyedRow>): seq<KeyedRow> {
    if s == [] then [] else Insert(s[|s| - 1], Sorted(s[..|s| - 1]))
  }

  // ---- column_checksum ------------------------------------------------------------------------------

  // One length-prefixed frame; the length has to fit eight bytes.
  function Frame(b: seq<Byte>): Option<seq<Byte>> {
    if |b| < Pow256(8) then Some(ToBytes(|b|, 8) + b) else None
  }

  // _update_digest, on the bytes fed so far
  function Update(lib: Library, fed: seq<Byte>, text: string): Option<seq<Byte>> {
    match Frame(lib.utf8(text))
    case None => None
    case Some(f) => Some(fed + f)
  }

  // The bytes fed for a list of texts.
  function Framed(lib: Library, texts: seq<string>): Option<seq<Byte>> {
    if texts == [] then Some([])
    else
      match Framed(lib, texts[..|texts| - 1])
      case None => None
      case Some(fed) => Update(lib, fed, texts[|texts| - 1])
  }

  // The texts of sorted rows for one column: per row its key and the cell.
  function Texts(lib: Library, rows: seq<KeyedRow>, column: ColumnRule): Option<seq<string>> {
    if rows == [] then Some([])
    else
      var front := Texts(lib, rows[..|rows| - 1], column);
      var last := rows[|rows| - 1];
      var cell := Cell(lib, last.row, column);
      if front.None? || cell.None? then None else Some(front.value + (last.key + [cell.value]))
  }

  // The byte stream a column's digest is fed.
  function Stream(lib: Library, rows: seq<Row>, column: ColumnRule, keys: seq<ColumnRule>): Option<seq<Byte>> {
    match WithKeys(lib, rows, keys)
    case None => None
    case Some(keyed) =>
      match Texts(lib, Sorted(keyed), column)
      case None => None
      case Some(texts) => Framed(lib, texts)
  }

  function Checksum(lib: Library, rows: seq<Row>, column: ColumnRule, keys: seq<ColumnRule>): Option<string> {
    match Stream(lib, rows, column, keys)
    case None => None
    case Some(fed) => Some(lib.sha256(fed))
  }

  lemma {:induction false} FramedNone(lib: Library, a: seq<string>, b: seq<string>)
    requires Framed(lib, a).None?
    ensures Framed(lib, a + b).None?
  {
    if b == [] {
      assert a + b == a;
    } else {
      assert (a + b)[..|a + b| - 1] == a + b[..|b| - 1];
      FramedNone(lib, a, b[..|b| - 1]);
    }
  }

  lemma {:induction false} TextsNone(lib: Library, rows: seq<KeyedRow>, n: nat, column: ColumnRule)
    requires n <= |rows| && Texts(lib, rows[..n], column).None?
    ensures Texts(lib, rows, column).None?
  {
    if n < |rows| {
      assert rows[..|rows| - 1][..n] == rows[..n];
      TextsNone(lib, rows[..|rows| - 1], n, column);
    } else {
      assert rows[..n] == rows;
    }
  }

  // A prefix of the rows that cannot be framed spoils the stream.
  lemma {:induction false} StreamNone(lib: Library, rows: seq<KeyedRow>, n: nat, column: ColumnRule)
    requires n <= |rows| && Texts(lib, rows[..n], column).Some?
    requires Framed(lib, Texts(lib, rows[..n], column).value).None?
    ensures Texts(lib, rows, column).None? || Framed(lib, Texts(lib, rows, column).value).None?
  {
    if n < |rows| {
      var front := rows[..|rows| - 1];
      assert front[..n] == rows[..n];
      StreamNone(lib, front, n, column);
      if Texts(lib, rows, column).Some? {
        var last := rows[|rows| - 1];
        FramedNone(lib, Texts(lib, front, column).value, last.key + [Cell(lib, last.row, column).value]);
      }
    } else {
      assert rows[..n] == rows;
    }
  }

  // Feeding the texts of one row; `before` is what was fed already.
  lemma FramedStep(lib: Library, s: seq<string>, x: string, fed: seq<Byte>)
    requires Framed(lib, s) == Some(fed)
    ensures Framed(lib, s + [x]) == Update(lib, fed, x)
  {
    assert (s + [x])[..|s|] == s;
  }

  lemma FeedStep(lib: Library, before: seq<string>, texts: seq<string>, j: nat, fed: seq<Byte>)
    requires j < |texts| && Framed(lib, before + texts[..j]) == Some(fed)
    ensures Framed(lib, before + texts[..j + 1]) == Update(lib, fed, texts[j])
  {
    assert before + texts[..j + 1] == (before + texts[..j]) + [texts[j]];
    FramedStep(lib, before + texts[..j], texts[j], fed);
  }

  lemma FeedFails(lib: Library, before: seq<string>, texts: seq<string>, j: nat)
    requires j <= |texts| && Framed(lib, before + texts[..j]).None?
    ensures Framed(lib, before + texts).None?
  {
    assert before + texts == (before + texts[..j]) + texts[j..];
    FramedNone(lib, before + texts[..j], texts[j..]);
  }

  method FeedRow(lib: Library, fed: seq<Byte>, texts: seq<string>,
                 ghost before: seq<string>) returns (r: Option<seq<Byte>>)
    requires Framed(lib, before) == Some(fed)
    ensures r.Some? ==> Framed(lib, before + texts) == r
    ensures r.None? ==> Framed(lib, before + texts).None?
  {
    var all := fed;
    assert before + texts[..0] == before;
    for j := 0 to |texts|
      invariant Framed(lib, before + texts[..j]) == Some(all)
    {
      FeedStep(lib, before, texts, j, all);
      var next := Update(lib, all, texts[j]);
      if next.None? {
        FeedFails(lib, before, texts, j + 1);
        return None;
      }
      all := next.value;
    }
    assert texts[..|texts|] == texts;
    r := Some(all);
  }

  method ColumnChecksum(lib: Library, rows: seq<Row>, column: ColumnRule, keys: seq<ColumnRule>)
    returns (digest: Option<string>)
    ensures digest == Checksum(lib, rows, column, keys)
  {
    var keyed := WithKeys(lib, rows, keys);
    if keyed.None? { return None; }
    var ordered := Sorted(keyed.value);
    var fed: seq<Byte> := [];
    ghost var done: seq<string> := [];
    for i := 0 to |ordered|
      invariant Texts(lib, ordered[..i], column) == Some(done) && Framed(lib, done) == Some(fed)
    {
      var row := ordered[i];
      TextsStep(lib, ordered, i, column);
      var cell := Cell(lib, row.row, column);
      if cell.None? {
        TextsNone(lib, ordered, i + 1, column);
        return None;
      }
      var texts := row.key + [cell.value];
      var next := FeedRow(lib, fed, texts, done);
      if next.None? {
        StreamNone(lib, ordered, i + 1, column);
        return None;
      }
      fed, done := next.value, done + texts;
    }
    assert ordered[..|ordered|] == ordered;
    digest := Some(lib.sha256(fed));
  }

  lemma TextsStep(lib: Library, rows: seq<KeyedRow>, i: nat, column: ColumnRule)
    requires i < |rows| && Texts(lib, rows[..i], column).Some?
    ensures var cell := Cell(lib, rows[i].row, column);
            Texts(lib, rows[..i + 1], column)
            == if cell.None? then None else Some(Texts(lib, rows[..i], column).value + (rows[i].key + [cell.value]))
  {
    assert rows[..i + 1][..i] == rows[..i];
  }

  // ---- grouped_counts -------------------------------------------------------------------------------

  // "|".join(texts)
  function Join(texts: seq<string>): string {
    if texts == [] then "" else if |texts| == 1 then texts[0] else texts[0] + "|" + Join(texts[1..])
  }

  // _display_key
  function DisplayKey(lib: Library, row: Row, columns: seq<ColumnRule>): Option<string> {
    match Cells(lib, row, columns)
    case None => None
    case Some(texts) => Some(Join(texts))
  }

  function DisplayKeys(lib: Library, rows: seq<Row>, columns: seq<ColumnRule>): (r: Option<seq<string>>)
    ensures r.Some? ==> |r.value| == |rows|
    ensures r.Some? ==> forall i :: 0 <= i < |rows| ==> DisplayKey(lib, rows[i], columns) == Some(r.value[i])
    ensures r.None? ==> exists i :: 0 <= i < |rows| && DisplayKey(lib, rows[i], columns).None?
  {
    if rows == [] then Some([])
    else
      var front := DisplayKeys(lib, rows[..|rows| - 1], columns);
      var last := DisplayKey(lib, rows[|rows| - 1], columns);
      if front.None? || last.None? then None else Some(front.value + [last.value])
  }

  // How often each text occurs.
  function Tally(texts: seq<string>): map<string, int> {
    map t | t in texts :: multiset(texts)[t]
  }

  function CountsOf(lib: Library, rows: seq<Row>, columns: seq<ColumnRule>): Option<map<string, int>> {
    match DisplayKeys(lib, rows, columns)
    case None => None
    case Some(texts) => Some(Tally(texts))
  }

  method GroupedCounts(lib: Library, rows: seq<Row>,
                       columns: seq<ColumnRule>) returns (counts: Option<map<string, int>>)
    ensures counts == CountsOf(lib, rows, columns)
  {
    var m: map<string, int> := map[];
    for i := 0 to |rows|
      invariant CountsOf(lib, rows[..i], columns) == Some(m)
    {
      var key := DisplayKey(lib, rows[i], columns);
      if key.None? { return None; }
      CountsStep(lib, rows, i, columns, m, key.value);
      m := m[key.value := (if key.value in m then m[key.value] else 0) + 1];
    }
    assert rows[..|rows|] == rows;
    counts := Some(m);
  }

  lemma CountsStep(lib: Library, rows: seq<Row>, i: nat, columns: seq<ColumnRule>, m: map<string, int>, key: string)
    requires i < |rows| && CountsOf(lib, rows[..i], columns) == Some(m)
          && DisplayKey(lib, rows[i], columns) == Some(key)
    ensures CountsOf(lib, rows[..i + 1], columns) == Some(m[key := (if key in m then m[key] else 0) + 1])
  {
    assert rows[..i + 1] == rows[..i] + [rows[i]];
    DisplayKeysStep(lib, rows[..i], rows[i], columns, key);
    TallyStep(DisplayKeys(lib, rows[..i], columns).value, key);
  }

  lemma DisplayKeysStep(lib: Library, front: seq<Row>, row: Row, columns: seq<ColumnRule>, key: string)
    requires DisplayKeys(lib, front, columns).Some? && DisplayKey(lib, row, columns) == Some(key)
    ensures DisplayKeys(lib, front + [row], columns) == Some(DisplayKeys(lib, front, columns).value + [key])
  {
    assert (front + [row])[..|front|] == front;
  }

  lemma TallyStep(texts: seq<string>, t: string)
    ensures Tally(texts + [t]) == Tally(texts)[t := (if t in texts then Tally(texts)[t] else 0) + 1]
  {
  }

  // ---- aggregate_values -------------------------------------------------------------------------------

  // The group a row belongs to, and the value it contributes.
  function GroupOf(lib: Library, row: Row, groupBy: seq<ColumnRule>): Option<string> {
    if groupBy == [] then Some("__all__") else DisplayKey(lib, row, groupBy)
  }

  function Groups(lib: Library, rows: seq<Row>, column: string,
                  groupBy: seq<ColumnRule>): Option<map<string, seq<Value>>> {
    if rows == [] then Some(map[])
    else
      var row := rows[|rows| - 1];
      var groups := Groups(lib, rows[..|rows| - 1], column, groupBy);
      var key := GroupOf(lib, row, groupBy);
      if groups.None? || key.None? || column !in row then None
      else
        var before := if key.value in groups.value then groups.value[key.value] else [];
        Some(groups.value[key.value := before + [row[column]]])
  }

  function NonNull(values: seq<Value>): (r: seq<Value>)
    ensures forall v :: v in r <==> v in values && !v.Null?
  {
    if values == [] then []
    else
      var v := values[|values| - 1];
      NonNull(values[..|values| - 1]) + if v.Null? then [] else [v]
  }

  // The exact sum at the smaller exponent.
  function ExactSum(a: Dec, b: Dec): Dec {
    var e := Min(a.exp, b.exp);
    DebeziumDecimal.OfInt(Scaled(a, e) + Scaled(b, e)).(exp := e)
  }

  // a + b in the context's precision
  function Add(a: Dec, b: Dec): Dec { Round(ExactSum(a, b)) }

  // sum((Decimal(str(v)) for v in values), start=Decimal(0))
  function Total(values: seq<Value>): Option<Dec> {
    if values == [] then Some(Dec(false, 0, 0))
    else
      var front := Total(values[..|values| - 1]);
      var last := DecimalOf(values[|values| - 1]);
      if front.None? || last.None? then None else Some(Add(front.value, last.value))
  }

  predicate NumLess(a: Dec, b: Dec) { Scaled(a, Min(a.exp, b.exp)) < Scaled(b, Min(a.exp, b.exp)) }

  // The number a comparable value is compared by; text compares with text only.
  function Magnitude(v: Value): Option<Dec> {
    match v
    case Integer(n) => Some(DebeziumDecimal.OfInt(n))
    case Decimal(d) => Some(d)
    case Boolean(flag) => Some(DebeziumDecimal.OfInt(if flag then 1 else 0))
    case Timestamp(micros, _) => Some(DebeziumDecimal.OfInt(micros))
    case Date(day) => Some(DebeziumDecimal.OfInt(day))
    case _ => None
  }

  // `a < b`, where Python defines it.
  function Less(a: Value, b: Value): Option<bool> {
    if a.Text? && b.Text? then Some(Orders.TextBelow(a.text, b.text))
    else if Magnitude(a).None? || Magnitude(b).None? then None
    else if a.Timestamp? != b.Timestamp? || a.Date? != b.Date? then None
    else if a.Timestamp? && a.aware != b.aware then None
    else Some(NumLess(Magnitude(a).value, Magnitude(b).value))
  }

  // min(values) and max(values): the first of the extreme ones
  function Extreme(values: seq<Value>, largest: bool): Option<Value>
    requires values != []
  {
    if |values| == 1 then Some(values[0])
    else
      var last := values[|values| - 1];
      match Extreme(values[..|values| - 1], largest)
      case None => None
      case Some(best) =>
        match (if largest then Less(best, last) else Less(last, best))
        case None => None
        case Some(better) => Some(if better then last else best)
  }

  function AggregateText(lib: Library, values: seq<Value>, operation: Operation, kind: CanonicalType): Option<string> {
    var present := NonNull(values);
    if present == [] then Some("N")
    else
      match operation
      case Sum =>
        (match Total(present)
         case None => None
         case Some(d) => Some("M:" + DecimalText.CanonicalText(d)))
      case Minimum =>
        (match Extreme(present, false)
         case None => None
         case Some(v) => Canonicalize(lib, v, kind))
      case Maximum =>
        (match Extreme(present, true)
         case None => None
         case Some(v) => Canonicalize(lib, v, kind))
  }

  function Aggregates(lib: Library, rows: seq<Row>, operation: Operation, column: ColumnRule, groupBy: seq<ColumnRule>)
    : Option<map<string, string>>
  {
    match Groups(lib, rows, column.name, groupBy)
    case None => None
    case Some(groups) =>
      TextsOfGroups(lib, groups, operation, column.kind)
  }

  // The aggregate of every group, unless one fails.
  function TextsOfGroups(lib: Library, groups: map<string, seq<Value>>, operation: Operation, kind: CanonicalType)
    : Option<map<string, string>> {
    if exists k | k in groups :: AggregateText(lib, groups[k], operation, kind).None? then None
    else Some(map k | k in groups :: AggregateText(lib, groups[k], operation, kind).value)
  }

  method AggregateValues(lib: Library, rows: seq<Row>, operation: Operation, column: ColumnRule,
                         groupBy: seq<ColumnRule>)
    returns (result: Option<map<string, string>>)
    ensures result == Aggregates(lib, rows, operation, column, groupBy)
  {
    var groups: map<string, seq<Value>> := map[];
    for i := 0 to |rows|
      invariant Groups(lib, rows[..i], column.name, groupBy) == Some(groups)
    {
      var key := GroupOf(lib, rows[i], groupBy);
      if key.None? || column.name !in rows[i] {
        GroupsNone(lib, rows, i + 1, column.name, groupBy);
        return None;
      }
      var before := if key.value in groups then groups[key.value] else [];
      GroupsStep(lib, rows, i, column.name, groupBy, groups, key.value);
      groups := groups[key.value := before + [rows[i][column.name]]];
    }
    assert rows[..|rows|] == rows;
    result := GroupTexts(lib, groups, operation, column.kind);
  }

  // The comprehension at the end of aggregate_values.
  method GroupTexts(lib: Library, groups: map<string, seq<Value>>, operation: Operation, kind: CanonicalType)
    returns (result: Option<map<string, string>>)
    ensures result == TextsOfGroups(lib, groups, operation, kind)
  {
    var texts: map<string, string> := map[];
    var left := groups.Keys;
    while left != {}
      invariant left <= groups.Keys && texts.Keys == groups.Keys - left
      invariant forall k :: k in texts ==> AggregateText(lib, groups[k], operation, kind) == Some(texts[k])
      decreases left
    {
      var k :| k in left;
      var text := AggregateText(lib, groups[k], operation, kind);
      if text.None? { return None; }
      texts := texts[k := text.value];
      left := left - {k};
    }
    result := Some(texts);
    AllTexts(lib, groups, operation, kind, texts);
  }

  lemma AllTexts(lib: Library, groups: map<string, seq<Value>>, operation: Operation, kind: CanonicalType,
                 texts: map<string, string>)
    requires texts.Keys == groups.Keys
    requires forall k :: k in texts ==> AggregateText(lib, groups[k], operation, kind) == Some(texts[k])
    ensures TextsOfGroups(lib, groups, operation, kind) == Some(texts)
  {
    assert forall k :: k in groups ==> k in texts;
    assert texts == map k | k in groups :: AggregateText(lib, groups[k], operation, kind).value;
  }

  lemma GroupsStep(lib: Library, rows: seq<Row>, i: nat, column: string, groupBy: seq<ColumnRule>,
                   groups: map<string, seq<Value>>, key: string)
    requires i < |rows| && column in rows[i] && GroupOf(lib, rows[i], groupBy) == Some(key)
    requires Groups(lib, rows[..i], column, groupBy) == Some(groups)
    ensures var before := if key in groups then groups[key] else [];
            Groups(lib, rows[..i + 1], column, groupBy) == Some(groups[key := before + [rows[i][column]]])
  {
    assert rows[..i + 1][..i] == rows[..i];
  }

  lemma {:induction false} GroupsNone(lib: Library, rows: seq<Row>, n: nat, column: string, groupBy: seq<ColumnRule>)
    requires n <= |rows| && Groups(lib, rows[..n], column, groupBy).None?
    ensures Groups(lib, rows, column, groupBy).None?
  {
    if n < |rows| {
      assert rows[..|rows| - 1][..n] == rows[..n];
      GroupsNone(lib, rows[..|rows| - 1], n, column, groupBy);
    } else {
      assert rows[..n] == rows;
    }
  }
}
