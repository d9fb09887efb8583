/** What the snapshot readers do to fetched rows (src/millrace/validation/readers.py): the
    test for duplicate business keys and the coercions at the Snowflake boundary. */
module SnapshotReaders {
  import opened Models
  import opened Decimals
  import opened DebeziumDecimal
  import opened Canonical
  import R = Reconciliation
  import Extremes
  import GateCompleteness

  // ---- _coerce_for_snowflake ------------------------------------------------------------------

  // value == value.to_integral_value()
  predicate Integral(d: Dec) { d.exp >= 0 || d.coef % Pow10(-d.exp) == 0 }

  // int(value), for an integral value
  function IntOf(d: Dec): int
    requires Integral(d)
  {
    if d.exp >= 0 then Signed(d) * Pow10(d.exp)
    else if d.negative then 0 - Quot(d.coef, Pow10(-d.exp)) else Quot(d.coef, Pow10(-d.exp))
  }

  function Coerce(v: Value, kind: CanonicalType): Value {
    if v.Decimal? then
      if kind.IntegerType? && Integral(v.dec) then Integer(IntOf(v.dec))
      else if kind.BooleanType? && NumEq(v.dec, OfInt(0)) then Boolean(false)
      else if kind.BooleanType? && NumEq(v.dec, OfInt(1)) then Boolean(true)
      else v
    else if kind.BooleanType? && v == Integer(0) then Boolean(false)
    else if kind.BooleanType? && v == Integer(1) then Boolean(true)
    else v
  }

  lemma IntOfIsExact(d: Dec)
    requires Integral(d)
    ensures NumEq(OfInt(IntOf(d)), d)
  {
  }

  /** The coercions are lossless and unambiguous: a value that has a canonical text keeps it,
      and a coerced value is the same number. */
  lemma CoercionIsLossless(lib: Library, v: Value, kind: CanonicalType)
    ensures Canonicalize(lib, v, kind).Some? ==> Coerce(v, kind) == v
    ensures Coerce(v, kind) != v ==>
              && Canonicalize(lib, Coerce(v, kind), kind).Some?
              && Magnitude(v).Some? && Magnitude(Coerce(v, kind)).Some?
              && NumEq(Magnitude(Coerce(v, kind)).value, Magnitude(v).value)
  {
    if v.Decimal? && kind.IntegerType? && Integral(v.dec) {
      IntegerIsLossless(lib, v);
    } else if kind.BooleanType? {
      BooleanIsLossless(lib, v);
    }
  }

  lemma IntegerIsLossless(lib: Library, v: Value)
    requires v.Decimal? && Integral(v.dec)
    ensures Canonicalize(lib, v, IntegerType).None? && Coerce(v, IntegerType) == Integer(IntOf(v.dec))
    ensures Canonicalize(lib, Integer(IntOf(v.dec)), IntegerType).Some?
    ensures NumEq(Magnitude(Integer(IntOf(v.dec))).value, v.dec)
  {
    IntOfIsExact(v.dec);
  }

  lemma BooleanIsLossless(lib: Library, v: Value)
    ensures var c := Coerce(v, BooleanType);
            c != v ==> && Canonicalize(lib, v, BooleanType).None? && c.Boolean?
                       && Magnitude(v).Some? && NumEq(Magnitude(c).value, Magnitude(v).value)
  {
    if v.Decimal? {
      NumEqTransitive(v.dec, OfInt(0), v.dec);
      NumEqTransitive(v.dec, OfInt(1), v.dec);
    } else if v.Integer? {
      NumEqTransitive(OfInt(v.number), OfInt(v.number), OfInt(v.number));
    }
  }

  lemma IntegralExactlyWhen(d: Dec)
    ensures Integral(d) <==> exists n :: NumEq(d, OfInt(n))
  {
    if Integral(d) {
      IntOfIsExact(d);
      NumEqTransitive(OfInt(IntOf(d)), d, OfInt(IntOf(d)));
      assert NumEq(d, OfInt(IntOf(d)));
    }
    forall n | NumEq(d, OfInt(n)) ensures Integral(d) { WholeIsIntegral(d, n); }
  }

  lemma WholeIsIntegral(d: Dec, n: int)
    requires NumEq(d, OfInt(n))
    ensures Integral(d)
  {
    if d.exp < 0 {
      assert Pow10(0) == 1 && Scaled(d, d.exp) == Signed(d);
      Multiple(d.coef, if n < 0 then 0 - n else n, Pow10(0 - d.exp));
    }
  }

  lemma Multiple(c: nat, m: nat, p: nat)
    requires p >= 1
    ensures c == m * p ==> c % p == 0
  {
    if c == m * p { QuotUnique(c, p, m, 0); }
  }

  /** A decimal in an integer column becomes readable exactly when it is a whole number; a number
      in a Boolean column exactly when it is 0 or 1, and then false or true. Nothing else changes. */
  lemma CoercedExactlyWhen(lib: Library, v: Value, kind: CanonicalType)
    ensures v.Decimal? && kind.IntegerType? ==>
              (Canonicalize(lib, Coerce(v, kind), kind).Some? <==> exists n :: NumEq(v.dec, OfInt(n)))
    ensures (v.Decimal? || v.Integer?) && kind.BooleanType? ==>
              && (Coerce(v, kind) == Boolean(false) <==> NumEq(Magnitude(v).value, OfInt(0)))
              && (Coerce(v, kind) == Boolean(true) <==> NumEq(Magnitude(v).value, OfInt(1)))
              && (Canonicalize(lib, Coerce(v, kind), kind).Some?
                  <==> NumEq(Magnitude(v).value, OfInt(0)) || NumEq(Magnitude(v).value, OfInt(1)))
    ensures !(v.Decimal? && kind.IntegerType?) && !((v.Decimal? || v.Integer?) && kind.BooleanType?) ==>
              Coerce(v, kind) == v
  {
    if v.Decimal? && kind.IntegerType? { IntegralExactlyWhen(v.dec); }
    if (v.Decimal? || v.Integer?) && kind.BooleanType? { NotBoth(Magnitude(v).value); }
    if v.Integer? && kind.BooleanType? {
      SameWhole(v.number, 0);
      SameWhole(v.number, 1);
    }
  }

  lemma SameWhole(m: int, n: int)
    ensures NumEq(OfInt(m), OfInt(n)) <==> m == n
  {
    assert Pow10(0) == 1;
  }

  lemma NotBoth(d: Dec)
    ensures !(NumEq(d, OfInt(0)) && NumEq(d, OfInt(1)))
  {
    NumEqTransitive(OfInt(0), d, OfInt(1));
    NumEqTransitive(d, OfInt(0), d);
    SameWhole(0, 1);
  }

  // ---- _ensure_unique_keys --------------------------------------------------------------------

  // set(keys)
  function Elements<T(==)>(s: seq<T>): set<T> { set x | x in s }

  lemma {:induction false} AsManyElements<T>(s: seq<T>)
    ensures |Elements(s)| <= |s|
    ensures |Elements(s)| == |s| <==> R.NoRepeats(s)
  {
    if s != [] {
      var front, last := s[..|s| - 1], s[|s| - 1];
      AsManyElements(front);
      assert Elements(s) == Elements(front) + {last};
      if last in front {
        var i :| 0 <= i < |front| && front[i] == last;
        assert s[i] == s[|s| - 1];
        assert Elements(s) == Elements(front);
      } else {
        assert R.NoRepeats(s) <==> R.NoRepeats(front);
      }
    }
  }

  // The key tuple _ensure_unique_keys compares.
  function RawKey(row: Row, names: seq<string>): (r: seq<Value>)
    ensures |r| == |names|
  {
    seq(|names|, i requires 0 <= i < |names| => if names[i] in row then row[names[i]] else Null)
  }

  ghost predicate RawDistinct(rows: seq<Row>, names: seq<string>) {
    forall i, j :: 0 <= i < j < |rows| ==> RawKey(rows[i], names) != RawKey(rows[j], names)
  }

  lemma IntegerCells(lib: Library, r: Row, q: Row, column: ColumnRule)
    requires column.kind.IntegerType? && Cell(lib, r, column).Some? && Cell(lib, r, column) == Cell(lib, q, column)
    ensures column.name in r && column.name in q && r[column.name] == q[column.name]
  {
    var v, w := r[column.name], q[column.name];
    if v.Integer? && w.Integer? { SameInteger(v.number, w.number); }
  }

  lemma SameInteger(m: int, n: int)
    requires "I:" + IntText(m) == "I:" + IntText(n)
    ensures m == n
  {
    Extremes.IntShown("I:", m);
    Extremes.IntShown("I:", n);
  }

  /** With integer key columns the readers' test for duplicate business keys is the
      distinctness of canonical keys. */
  lemma IntegerKeysStayDistinct(lib: Library, rows: seq<Row>, keys: seq<ColumnRule>, names: seq<string>)
    requires |keys| == |names| && forall n :: 0 <= n < |keys| ==> keys[n].kind.IntegerType? && keys[n].name == names[n]
    requires WithKeys(lib, rows, keys).Some?
    ensures RawDistinct(rows, names) <==> GateCompleteness.Distinct(lib, rows, keys)
  {
    var keyed := WithKeys(lib, rows, keys).value;
    forall i, j | 0 <= i < j < |rows|
      ensures RawKey(rows[i], names) == RawKey(rows[j], names) <==> R.KeyTexts(keyed)[i] == R.KeyTexts(keyed)[j]
    {
      SameIntegerKey(lib, rows[i], rows[j], keys, names);
    }
  }

  lemma SameIntegerKey(lib: Library, r: Row, q: Row, keys: seq<ColumnRule>, names: seq<string>)
    requires |keys| == |names| && forall n :: 0 <= n < |keys| ==> keys[n].kind.IntegerType? && keys[n].name == names[n]
    requires Cells(lib, r, keys).Some? && Cells(lib, q, keys).Some?
    ensures RawKey(r, names) == RawKey(q, names) <==> Cells(lib, r, keys) == Cells(lib, q, keys)
  {
    var x, y := Cells(lib, r, keys).value, Cells(lib, q, keys).value;
    if x == y {
      forall n | 0 <= n < |keys| ensures RawKey(r, names)[n] == RawKey(q, names)[n] {
        assert Cell(lib, r, keys[n]) == Some(x[n]) && Cell(lib, q, keys[n]) == Some(y[n]);
        IntegerCells(lib, r, q, keys[n]);
      }
    }
    if RawKey(r, names) == RawKey(q, names) {
      forall n | 0 <= n < |keys| ensures x[n] == y[n] {
        assert Cell(lib, r, keys[n]) == Some(x[n]) && Cell(lib, q, keys[n]) == Some(y[n]);
        assert RawKey(r, names)[n] == RawKey(q, names)[n];
      }
      assert x == y;
    }
  }

  function RawKeys(rows: seq<Row>, names: seq<string>): (r: seq<seq<Value>>)
    ensures |r| == |rows| && forall i :: 0 <= i < |rows| ==> r[i] == RawKey(rows[i], names)
  {
    seq(|rows|, i requires 0 <= i < |rows| => RawKey(rows[i], names))
  }

  // The rows, unless some business key repeats.
  function EnsureUniqueKeys(rows: seq<Row>, names: seq<string>): Option<seq<Row>> {
    if |RawKeys(rows, names)| != |Elements(RawKeys(rows, names))| then None else Some(rows)
  }

  /** The test rejects exactly the rows in which a business key repeats, whatever its types. */
  lemma UniqueKeysExactlyWhen(rows: seq<Row>, names: seq<string>)
    ensures EnsureUniqueKeys(rows, names).Some? <==> RawDistinct(rows, names)
  {
    var raw := RawKeys(rows, names);
    AsManyElements(raw);
    assert R.NoRepeats(raw) <==> RawDistinct(rows, names) by {
      if R.NoRepeats(raw) {
        forall i, j | 0 <= i < j < |rows| ensures RawKey(rows[i], names) != RawKey(rows[j], names) {
          assert raw[i] != raw[j];
        }
      }
    }
  }

  /** With integer keys, as configured, these are the rows in which a canonical key repeats. */
  lemma UniqueKeysAreDistinct(lib: Library, rows: seq<Row>, keys: seq<ColumnRule>, names: seq<string>)
    requires |keys| == |names| && forall n :: 0 <= n < |keys| ==> keys[n].kind.IntegerType? && keys[n].name == names[n]
    requires WithKeys(lib, rows, keys).Some?
    ensures EnsureUniqueKeys(rows, names).Some? <==> GateCompleteness.Distinct(lib, rows, keys)
  {
    UniqueKeysExactlyWhen(rows, names);
    IntegerKeysStayDistinct(lib, rows, keys, names);
  }
}
