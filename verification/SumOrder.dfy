/** Sums beyond 28 digits: exactly when every partial sum is exact, and what happens when one
    is not - the sum depends on the order of the rows, and a permuted candidate fails. */
module SumOrder {
  import opened Models
  import opened Decimals
  import opened DecimalText
  import opened DebeziumDecimal
  import opened Canonical
  import opened Gate
  import T = Totals
  import GT = GateTheorems

  // ---- partial sums --------------------------------------------------------------------------

  ghost predicate AllNumbers(values: seq<Value>) { forall v :: v in values ==> DecimalOf(v).Some? }

  // The sum without rounding.
  function ExactTotal(values: seq<Value>): Dec
    requires AllNumbers(values)
  {
    if values == [] then Dec(false, 0, 0)
    else ExactSum(ExactTotal(values[..|values| - 1]), DecimalOf(values[|values| - 1]).value)
  }

  lemma SumByValue(a: Dec, b: Dec, c: Dec)
    requires NumEq(a, b)
    ensures NumEq(ExactSum(a, c), ExactSum(b, c))
  {
    var l := Min(a.exp, Min(b.exp, c.exp));
    T.ScaledSum(a, c, l);
    T.ScaledSum(b, c, l);
    NumEqAt(a, b, l);
    NumEqAt(ExactSum(a, c), ExactSum(b, c), l);
  }

  lemma {:induction false} TotalExists(values: seq<Value>)
    requires AllNumbers(values)
    ensures Total(values).Some?
  {
    if values != [] {
      assert values[|values| - 1] in values;
      TotalExists(values[..|values| - 1]);
    }
  }

  // The sum of the first `n` values is the exact one.
  ghost predicate ExactAt(values: seq<Value>, n: nat)
    requires AllNumbers(values) && n <= |values|
  {
    Total(values[..n]).Some? && NumEq(Total(values[..n]).value, ExactTotal(values[..n]))
  }

  ghost predicate ShortAt(values: seq<Value>, n: nat)
    requires AllNumbers(values) && n <= |values|
  {
    Significant(ExactTotal(values[..n])) <= PRECISION
  }

  lemma RoundedSum(t: Dec, x: Dec, c: Dec)
    requires NumEq(t, x)
    ensures NumEq(Add(t, c), ExactSum(x, c)) <==> Significant(ExactSum(x, c)) <= PRECISION
  {
    var r, y, z := Add(t, c), ExactSum(t, c), ExactSum(x, c);
    SumByValue(t, x, c);
    T.SignificantByValue(y, z);
    RoundExactExactlyWhen(y);
    NumEqTransitive(r, y, z);
    NumEqTransitive(y, z, y);
    NumEqTransitive(r, z, y);
  }

  lemma NextExact(values: seq<Value>, n: nat)
    requires AllNumbers(values) && n < |values| && ExactAt(values, n)
    ensures ExactAt(values, n + 1) <==> ShortAt(values, n + 1)
  {
    assert values[..n + 1][..n] == values[..n] && values[n] in values;
    RoundedSum(Total(values[..n]).value, ExactTotal(values[..n]), DecimalOf(values[n]).value);
  }

  lemma {:induction false} ShortIsExact(values: seq<Value>, n: nat)
    requires AllNumbers(values) && n <= |values|
    requires forall i :: 0 <= i <= n ==> ShortAt(values, i)
    ensures ExactAt(values, n)
  {
    if n == 0 {
      NumEqTransitive(Dec(false, 0, 0), Dec(false, 0, 0), Dec(false, 0, 0));
    } else {
      ShortIsExact(values, n - 1);
      assert ShortAt(values, n);
      NextExact(values, n - 1);
    }
  }

  /** Every partial sum is the exact one if and only if every exact partial sum has at most
      28 significant digits. */
  lemma PartialSumsExactExactlyWhen(values: seq<Value>)
    requires AllNumbers(values)
    ensures (forall n :: 0 <= n <= |values| ==> ExactAt(values, n))
       <==> (forall n :: 0 <= n <= |values| ==> ShortAt(values, n))
  {
    if forall n :: 0 <= n <= |values| ==> ShortAt(values, n) {
      forall n | 0 <= n <= |values| ensures ExactAt(values, n) { ShortIsExact(values, n); }
    }
    if forall n :: 0 <= n <= |values| ==> ExactAt(values, n) {
      forall n | 0 <= n <= |values| ensures ShortAt(values, n) { ExactIsShort(values, n); }
    }
  }

  lemma ExactIsShort(values: seq<Value>, n: nat)
    requires AllNumbers(values) && n <= |values|
    requires forall i :: 0 <= i <= |values| ==> ExactAt(values, i)
    ensures ShortAt(values, n)
  {
    if n > 0 {
      assert ExactAt(values, n - 1) && ExactAt(values, n);
      NextExact(values, n - 1);
    }
  }

  // ---- a sum that depends on the order --------------------------------------------------------

  // Rounding one digit off a number of 29.
  lemma DropsOneDigit(q: nat, r: nat, precision: nat)
    requires precision >= 2 && Digits(q) == precision && r < 5
    ensures RoundTo(Dec(false, q * 10 + r, 0), precision) == Dec(false, q, 1)
  {
    BelowPower(q, precision);
    OneMoreDigit(q, r);
    RoundsOneDown(q * 10 + r, q, r, precision);
  }

  lemma OneMoreDigit(q: nat, r: nat)
    requires q >= 1 && r < 10
    ensures Digits(q * 10 + r) == Digits(q) + 1
  {
    assert (q * 10 + r) / 10 == q;
  }

  lemma RoundsOneDown(n: nat, q: nat, r: nat, precision: nat)
    requires n == q * 10 + r && r < 5 && precision >= 1 && Digits(n) == precision + 1 && q != Pow10(precision)
    ensures RoundTo(Dec(false, n, 0), precision) == Dec(false, q, 1)
  {
    assert Pow10(1) == 10;
    QuotUnique(n, 10, q, r);
  }

  lemma AddToZero(n: int)
    ensures Add(Dec(false, 0, 0), OfInt(n)) == Round(OfInt(n))
  {
    assert Pow10(0) == 1;
    assert Signed(OfInt(n)) == n && Scaled(OfInt(n), 0) == n && Scaled(Dec(false, 0, 0), 0) == 0;
  }

  // Adding to q * 10 as the context holds it.
  lemma AddToTens(q: nat, n: int)
    ensures ExactSum(Dec(false, q, 1), OfInt(n)) == OfInt(q * 10 + n)
  {
    assert Pow10(0) == 1 && Pow10(1) == 10;
    assert Signed(OfInt(n)) == n && Scaled(OfInt(n), 0) == n && Scaled(Dec(false, q, 1), 0) == q * 10;
  }

  function Numbers(x: int, y: int, z: int): seq<Value> { [Integer(x), Integer(y), Integer(z)] }

  lemma TotalOne(x: int)
    ensures Total([Integer(x)]) == Some(Round(OfInt(x)))
  {
    assert [Integer(x)][..0] == [];
    AddToZero(x);
  }

  lemma TotalAppend(values: seq<Value>, x: int, a: Dec, b: Dec)
    requires Total(values) == Some(a) && Add(a, OfInt(x)) == b
    ensures Total(values + [Integer(x)]) == Some(b)
  {
    assert (values + [Integer(x)])[..|values|] == values;
  }

  lemma ZeroAndOne()
    ensures Round(OfInt(0)) == Dec(false, 0, 0) && Round(OfInt(1)) == Dec(false, 1, 0)
  {
  }

  // What the context makes of 10q, of 10q + 1, and of 10q - 10q.
  lemma TensRounded(q: nat)
    requires Digits(q) == PRECISION
    ensures Round(OfInt(q * 10)) == Dec(false, q, 1)
  {
    DropsOneDigit(q, 0, PRECISION);
    assert OfInt(q * 10) == Dec(false, q * 10 + 0, 0);
  }

  lemma OneIsLost(q: nat)
    requires Digits(q) == PRECISION
    ensures Add(Dec(false, q, 1), OfInt(1)) == Dec(false, q, 1)
  {
    DropsOneDigit(q, 1, PRECISION);
    AddToTens(q, 1);
    assert OfInt(q * 10 + 1) == Dec(false, q * 10 + 1, 0);
  }

  lemma TensCancel(q: nat)
    ensures Add(Dec(false, q, 1), OfInt(0 - q * 10)) == Dec(false, 0, 0)
  {
    AddToTens(q, 0 - q * 10);
    ZeroAndOne();
  }

  lemma OneCounts()
    ensures Add(Dec(false, 0, 0), OfInt(1)) == Dec(false, 1, 0)
  {
    AddToZero(1);
    ZeroAndOne();
  }

  lemma NumbersPermute(x: int, y: int, z: int)
    ensures multiset(Numbers(x, y, z)) == multiset(Numbers(x, z, y))
  {
  }

  // The context's total after one number more, starting from 10q, from 10q and from 0.
  lemma StartsAtTens(p: int, q: nat)
    requires Digits(q) == PRECISION && p == q * 10
    ensures Total([Integer(p)]) == Some(Dec(false, q, 1))
  {
    TotalOne(p);
    TensRounded(q);
  }

  lemma OneMoreIsLost(values: seq<Value>, q: nat, one: int)
    requires Digits(q) == PRECISION && Total(values) == Some(Dec(false, q, 1)) && one == 1
    ensures Total(values + [Integer(one)]) == Some(Dec(false, q, 1))
  {
    OneIsLost(q);
    TotalAppend(values, one, Dec(false, q, 1), Dec(false, q, 1));
  }

  lemma MinusTensIsZero(values: seq<Value>, q: nat, m: int)
    requires Total(values) == Some(Dec(false, q, 1)) && m == 0 - q * 10
    ensures Total(values + [Integer(m)]) == Some(Dec(false, 0, 0))
  {
    TensCancel(q);
    TotalAppend(values, m, Dec(false, q, 1), Dec(false, 0, 0));
  }

  lemma OneOnZero(values: seq<Value>, one: int)
    requires Total(values) == Some(Dec(false, 0, 0)) && one == 1
    ensures Total(values + [Integer(one)]) == Some(Dec(false, 1, 0))
  {
    OneCounts();
    TotalAppend(values, one, Dec(false, 0, 0), Dec(false, 1, 0));
  }

  lemma AsNumbers(x: int, y: int, z: int)
    ensures [Integer(x)] + [Integer(y)] + [Integer(z)] == Numbers(x, y, z)
  {
  }

  lemma ThenMinus(p: int, q: nat, one: int, m: int)
    requires Digits(q) == PRECISION && p == q * 10 && one == 1 && m == 0 - p
    ensures Total(Numbers(p, one, m)) == Some(Dec(false, 0, 0))
  {
    var first := [Integer(p)];
    StartsAtTens(p, q);
    OneMoreIsLost(first, q, one);
    MinusTensIsZero(first + [Integer(one)], q, m);
    AsNumbers(p, one, m);
  }

  lemma ThenOne(p: int, q: nat, one: int, m: int)
    requires Digits(q) == PRECISION && p == q * 10 && one == 1 && m == 0 - p
    ensures Total(Numbers(p, m, one)) == Some(Dec(false, 1, 0))
  {
    var first := [Integer(p)];
    StartsAtTens(p, q);
    MinusTensIsZero(first, q, m);
    OneOnZero(first + [Integer(m)], one);
    AsNumbers(p, m, one);
  }

  /** For every q of 28 digits the sum of 10q, 1 and -10q, in this order, is 0; with the 1
      last it is 1. */
  lemma SumDependsOnOrder(q: nat, x: int, y: int, z: int)
    requires Digits(q) == PRECISION && x == q * 10 && y == 1 && z == 0 - x
    ensures multiset(Numbers(x, y, z)) == multiset(Numbers(x, z, y))
    ensures Total(Numbers(x, y, z)) == Some(Dec(false, 0, 0)) && Total(Numbers(x, z, y)) == Some(Dec(false, 1, 0))
  {
    NumbersPermute(x, y, z);
    ThenMinus(x, q, y, z);
    ThenOne(x, q, y, z);
  }

  // ---- a permuted candidate -----------------------------------------------------------------------

  const TOTAL := AggregateRule("total", Sum, "amount", [])
  const ID := ColumnRule("id", IntegerType)
  const AMOUNT := ColumnRule("amount", IntegerType)
  const LEDGER := EntityRule("ledger", ["id"], [ID, AMOUNT], [], [TOTAL], false, false)

  function Entry(id: int, amount: Value): Row { map["id" := Integer(id), "amount" := amount] }

  function Entries(i: int, x: int, j: int, y: int, k: int, z: int): seq<Row> {
    [Entry(i, Integer(x)), Entry(j, Integer(y)), Entry(k, Integer(z))]
  }

  lemma FirstGroup(lib: Library, r: Row)
    requires "amount" in r
    ensures Groups(lib, [r], "amount", []) == Some(map["__all__" := [r["amount"]]])
  {
    assert [r][..0] == [] && Groups(lib, [], "amount", []) == Some(map[]);
    assert [] + [r["amount"]] == [r["amount"]];
  }

  lemma NextGroup(lib: Library, rows: seq<Row>, r: Row, values: seq<Value>)
    requires Groups(lib, rows, "amount", []) == Some(map["__all__" := values]) && "amount" in r
    ensures Groups(lib, rows + [r], "amount", []) == Some(map["__all__" := values + [r["amount"]]])
  {
    assert (rows + [r])[..|rows|] == rows;
    var after := values + [r["amount"]];
    assert map["__all__" := values]["__all__" := after] == map["__all__" := after];
  }

  lemma OneGroup(lib: Library, r: Row, s: Row, t: Row)
    requires "amount" in r && "amount" in s && "amount" in t
    ensures Groups(lib, [r, s, t], "amount", []) == Some(map["__all__" := [r["amount"], s["amount"], t["amount"]]])
  {
    FirstGroup(lib, r);
    NextGroup(lib, [r], s, [r["amount"]]);
    assert [r] + [s] == [r, s] && [r["amount"]] + [s["amount"]] == [r["amount"], s["amount"]];
    NextGroup(lib, [r, s], t, [r["amount"], s["amount"]]);
    assert [r, s] + [t] == [r, s, t];
    assert [r["amount"], s["amount"]] + [t["amount"]] == [r["amount"], s["amount"], t["amount"]];
  }

  lemma AllPresent(x: int, y: int, z: int)
    ensures NonNull(Numbers(x, y, z)) == Numbers(x, y, z)
  {
    var s := [Integer(x), Integer(y), Integer(z)];
    assert s[..2] == [Integer(x), Integer(y)] && s[..2][..1] == [Integer(x)] && [Integer(x)][..0] == [];
    assert NonNull([Integer(x)]) == [Integer(x)];
  }

  lemma OneAggregate(lib: Library, rows: seq<Row>, operation: Operation, column: ColumnRule, groupBy: seq<ColumnRule>,
                     group: string, values: seq<Value>, text: string)
    requires Groups(lib, rows, column.name, groupBy) == Some(map[group := values])
    requires AggregateText(lib, values, operation, column.kind) == Some(text)
    ensures Aggregates(lib, rows, operation, column, groupBy) == Some(map[group := text])
  {
    var groups := map[group := values];
    assert forall k :: k in groups ==> k == group;
    assert (map k | k in groups :: AggregateText(lib, groups[k], operation, column.kind).value) == map[group := text];
  }

  // The text of a sum of present integers.
  lemma SumText(lib: Library, x: int, y: int, z: int, d: Dec)
    requires Total(Numbers(x, y, z)) == Some(d)
    ensures AggregateText(lib, Numbers(x, y, z), Sum, IntegerType) == Some("M:" + CanonicalText(d))
  {
    AllPresent(x, y, z);
  }

  // The aggregate of three ledger entries.
  lemma LedgerTotal(lib: Library, i: int, x: int, j: int, y: int, k: int, z: int, d: Dec)
    requires Total(Numbers(x, y, z)) == Some(d)
    ensures Aggregates(lib, Entries(i, x, j, y, k, z), Sum, AMOUNT, [])
         == Some(map["__all__" := "M:" + CanonicalText(d)])
  {
    OneGroup(lib, Entry(i, Integer(x)), Entry(j, Integer(y)), Entry(k, Integer(z)));
    SumText(lib, x, y, z, d);
    OneAggregate(lib, Entries(i, x, j, y, k, z), Sum, AMOUNT, [], "__all__", Numbers(x, y, z), "M:" + CanonicalText(d));
  }

  lemma TextsDiffer(zero: Dec, one: Dec)
    requires zero == Dec(false, 0, 0) && one == Dec(false, 1, 0)
    ensures CanonicalText(zero) != CanonicalText(one)
  {
    assert Significant(zero) == 0 && Significant(one) == 1;
    CanonicalTextIsFaithful(zero, one);
    if NumEq(zero, one) { ZeroByValue(zero, one); }
  }

  lemma CheckedTexts(lib: Library, x: string, y: string, a: seq<Row>, b: seq<Row>)
    requires Aggregates(lib, a, Sum, AMOUNT, []) == Some(map["__all__" := x])
    requires Aggregates(lib, b, Sum, AMOUNT, []) == Some(map["__all__" := y]) && x != y
    ensures AggregateCheck(lib, LEDGER, a, b, TOTAL).Some? && !AggregateCheck(lib, LEDGER, a, b, TOTAL).value.passed
  {
    assert Find(LEDGER.columns, "amount") == Some(AMOUNT) by { assert LEDGER.columns[1..] == [AMOUNT]; }
    assert map["__all__" := x]["__all__"] != map["__all__" := y]["__all__"];
  }

  lemma TotalsDiffer(lib: Library, a: seq<Row>, b: seq<Row>, c: Dec, d: Dec)
    requires Aggregates(lib, a, Sum, AMOUNT, []) == Some(map["__all__" := "M:" + CanonicalText(c)])
    requires Aggregates(lib, b, Sum, AMOUNT, []) == Some(map["__all__" := "M:" + CanonicalText(d)])
    requires CanonicalText(c) != CanonicalText(d)
    ensures AggregateCheck(lib, LEDGER, a, b, TOTAL).Some? && !AggregateCheck(lib, LEDGER, a, b, TOTAL).value.passed
  {
    SameTail("M:", CanonicalText(c), CanonicalText(d));
    CheckedTexts(lib, "M:" + CanonicalText(c), "M:" + CanonicalText(d), a, b);
  }

  lemma LedgerIsWellFormed()
    ensures GT.WellFormed(LEDGER)
  {
    assert LEDGER.columns[1..] == [AMOUNT];
  }

  lemma RowsPermute(r: Row, s: Row, t: Row)
    ensures multiset([r, s, t]) == multiset([r, t, s])
  {
  }

  // Two orders of three entries whose sums have different texts.
  lemma LedgerFails(lib: Library, i: int, x: int, j: int, y: int, k: int, z: int, c: Dec, d: Dec)
    requires Total(Numbers(x, y, z)) == Some(c) && Total(Numbers(x, z, y)) == Some(d)
    requires CanonicalText(c) != CanonicalText(d)
    ensures var check := AggregateCheck(lib, LEDGER, Entries(i, x, j, y, k, z), Entries(i, x, k, z, j, y), TOTAL);
            check.Some? && !check.value.passed
  {
    LedgerTotal(lib, i, x, j, y, k, z, c);
    LedgerTotal(lib, i, x, k, z, j, y, d);
    TotalsDiffer(lib, Entries(i, x, j, y, k, z), Entries(i, x, k, z, j, y), c, d);
  }

  // The two sums, and that their texts differ.
  lemma SumsApart(q: nat, x: int, y: int, z: int) returns (c: Dec, d: Dec)
    requires Digits(q) == PRECISION && x == q * 10 && y == 1 && z == 0 - x
    ensures Total(Numbers(x, y, z)) == Some(c) && Total(Numbers(x, z, y)) == Some(d)
    ensures CanonicalText(c) != CanonicalText(d)
  {
    SumDependsOnOrder(q, x, y, z);
    c, d := Total(Numbers(x, y, z)).value, Total(Numbers(x, z, y)).value;
    TextsDiffer(c, d);
  }

  /** A correct candidate, its rows in another order, fails its aggregate check when the sum
      passes through more than 28 digits: ledger entries of 10q, 1 and -10q, whatever their ids. */
  lemma PermutedCandidateFails(lib: Library, q: nat, i: int, x: int, j: int, y: int, k: int, z: int)
    requires Digits(q) == PRECISION && x == q * 10 && y == 1 && z == 0 - x
    ensures multiset(Entries(i, x, j, y, k, z)) == multiset(Entries(i, x, k, z, j, y)) && GT.WellFormed(LEDGER)
    ensures var check := AggregateCheck(lib, LEDGER, Entries(i, x, j, y, k, z), Entries(i, x, k, z, j, y), TOTAL);
            check.Some? && !check.value.passed
  {
    LedgerIsWellFormed();
    RowsPermute(Entry(i, Integer(x)), Entry(j, Integer(y)), Entry(k, Integer(z)));
    var c, d := SumsApart(q, x, y, z);
    LedgerFails(lib, i, x, j, y, k, z, c, d);
  }
}
