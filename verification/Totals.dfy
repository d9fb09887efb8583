/** Sums in the decimal context. Counted in units of 10^e, sums whose magnitude stays below
    10^28 units are exact, so they depend neither on the order of the summands nor on how
    many trailing zeros each is written with. */
module Totals {
  import Models
  import opened Decimals
  import DebeziumDecimal
  import opened Canonical
  import Reconciliation

  // u * 10^e
  function AtUnit(u: int, e: int): Dec { DebeziumDecimal.OfInt(u).(exp := e) }

  predicate InUnits(d: Dec, e: int) { d.coef == 0 || e <= Strip(d).exp }

  // How many units of 10^e a decimal is.
  function Units(d: Dec, e: int): int
    requires InUnits(d, e)
  {
    if d.coef == 0 then 0 else Scaled(Strip(d), e)
  }

  lemma UnitsMean(d: Dec, e: int)
    requires InUnits(d, e)
    ensures NumEq(d, AtUnit(Units(d, e), e))
  {
    var u := AtUnit(Units(d, e), e);
    assert Pow10(0) == 1;
    if d.coef == 0 {
      StripDecides(d, u);
    } else {
      StripKeepsValue(d);
      assert Scaled(u, e) == Signed(u);
      NumEqAt(Strip(d), u, e);
      NumEqTransitive(Strip(d), d, u);
      NumEqTransitive(d, Strip(d), u);
    }
  }

  lemma UnitsAre(d: Dec, e: int, u: int)
    requires NumEq(d, AtUnit(u, e))
    ensures InUnits(d, e) && Units(d, e) == u
  {
    StripDecides(d, AtUnit(u, e));
    ZeroByValue(d, AtUnit(u, e));
    assert Pow10(0) == 1;
    if d.coef != 0 {
      StripsBack(AtUnit(u, e));
      StripKeepsValue(AtUnit(u, e));
      NumEqAt(Strip(AtUnit(u, e)), AtUnit(u, e), e);
      assert Scaled(AtUnit(u, e), e) == u;
    }
  }

  lemma UnitsByValue(a: Dec, b: Dec, e: int)
    requires NumEq(a, b) && InUnits(a, e)
    ensures InUnits(b, e) && Units(b, e) == Units(a, e)
  {
    StripDecides(a, b);
    ZeroByValue(a, b);
  }

  lemma SignificantByValue(a: Dec, b: Dec)
    requires NumEq(a, b)
    ensures Significant(a) == Significant(b)
  {
    StripDecides(a, b);
    ZeroByValue(a, b);
  }

  function Abs(n: int): nat { if n < 0 then -n else n }

  lemma SmallUnits(u: int, e: int)
    requires Abs(u) < Pow10(PRECISION)
    ensures Significant(AtUnit(u, e)) <= PRECISION
  {
    DigitsBound(Abs(u), PRECISION);
    if u != 0 { FewDigits(AtUnit(u, e)); }
  }

  lemma ScaledSum(a: Dec, b: Dec, l: int)
    requires l <= a.exp && l <= b.exp
    ensures ExactSum(a, b).exp >= l && Scaled(ExactSum(a, b), l) == Scaled(a, l) + Scaled(b, l)
  {
    var m := Min(a.exp, b.exp);
    var x := ExactSum(a, b);
    assert Pow10(0) == 1;
    assert Scaled(x, m) == Scaled(a, m) + Scaled(b, m);
    ScaledLower(a, m, l);
    ScaledLower(b, m, l);
    ScaledLower(x, m, l);
    Distribute(Scaled(a, m), Scaled(b, m), Pow10(m - l));
  }

  lemma Distribute(x: int, y: int, p: int)
    ensures (x + y) * p == x * p + y * p
  {
  }

  lemma AtUnitScaled(u: int, e: int, l: int)
    requires l <= e
    ensures Scaled(AtUnit(u, e), l) == u * Pow10(e - l)
  {
  }

  lemma SumInUnits(a: Dec, b: Dec, e: int)
    requires InUnits(a, e) && InUnits(b, e)
    ensures NumEq(ExactSum(a, b), AtUnit(Units(a, e) + Units(b, e), e))
  {
    var u, v := Units(a, e), Units(b, e);
    var l := Min(Min(a.exp, b.exp), e);
    UnitsMean(a, e);
    UnitsMean(b, e);
    NumEqAt(a, AtUnit(u, e), l);
    NumEqAt(b, AtUnit(v, e), l);
    ScaledSum(a, b, l);
    AtUnitScaled(u, e, l);
    AtUnitScaled(v, e, l);
    AtUnitScaled(u + v, e, l);
    Distribute(u, v, Pow10(e - l));
    NumEqAt(ExactSum(a, b), AtUnit(u + v, e), l);
  }

  /** One addition is exact while the sum is below 10^28 units. */
  lemma AddIsExact(a: Dec, b: Dec, e: int)
    requires InUnits(a, e) && InUnits(b, e) && Abs(Units(a, e) + Units(b, e)) < Pow10(PRECISION)
    ensures InUnits(Add(a, b), e) && Units(Add(a, b), e) == Units(a, e) + Units(b, e)
  {
    var u, x := Units(a, e) + Units(b, e), ExactSum(a, b);
    SumInUnits(a, b, e);
    SmallUnits(u, e);
    SignificantByValue(x, AtUnit(u, e));
    RoundExactExactlyWhen(x);
    NumEqTransitive(Round(x), x, AtUnit(u, e));
    UnitsAre(Round(x), e, u);
  }

  // ---- whole sums ------------------------------------------------------------------------------

  ghost predicate AllInUnits(values: seq<Value>, e: int) {
    forall v :: v in values ==> DecimalOf(v).Some? && InUnits(DecimalOf(v).value, e)
  }

  function UnitList(values: seq<Value>, e: int): (r: seq<int>)
    requires AllInUnits(values, e)
    ensures |r| == |values| && forall i :: 0 <= i < |r| ==> r[i] == Units(DecimalOf(values[i]).value, e)
  {
    seq(|values|, i requires 0 <= i < |values| => Units(DecimalOf(values[i]).value, e))
  }

  function SumOf(units: seq<int>): int {
    if units == [] then 0 else SumOf(units[..|units| - 1]) + units[|units| - 1]
  }

  function MagnitudeOf(units: seq<int>): nat {
    if units == [] then 0 else MagnitudeOf(units[..|units| - 1]) + Abs(units[|units| - 1])
  }

  lemma {:induction false} SumBelowMagnitude(units: seq<int>)
    ensures Abs(SumOf(units)) <= MagnitudeOf(units)
  {
    if units != [] { SumBelowMagnitude(units[..|units| - 1]); }
  }

  function Front<T>(s: seq<T>): seq<T>
    requires s != []
  {
    s[..|s| - 1]
  }

  function Last<T>(s: seq<T>): T
    requires s != []
  {
    s[|s| - 1]
  }

  lemma UnitListFront(values: seq<Value>, e: int)
    requires values != [] && AllInUnits(values, e)
    ensures AllInUnits(Front(values), e) && DecimalOf(Last(values)).Some? && InUnits(DecimalOf(Last(values)).value, e)
    ensures var u := Units(DecimalOf(Last(values)).value, e);
            && SumOf(UnitList(values, e)) == SumOf(UnitList(Front(values), e)) + u
            && MagnitudeOf(UnitList(values, e)) == MagnitudeOf(UnitList(Front(values), e)) + Abs(u)
  {
    assert UnitList(values, e)[..|values| - 1] == UnitList(Front(values), e);
  }

  lemma EmptyTotal(values: seq<Value>, e: int)
    requires values == []
    ensures Total(values).Some? && InUnits(Total(values).value, e) && Units(Total(values).value, e) == 0
  {
  }

  lemma TotalStep(values: seq<Value>, a: Dec, b: Dec, e: int, u: int, v: int)
    requires values != [] && Total(Front(values)) == Models.Some(a) && DecimalOf(Last(values)) == Models.Some(b)
    requires InUnits(a, e) && InUnits(b, e) && Units(a, e) == u && Units(b, e) == v && Abs(u + v) < Pow10(PRECISION)
    ensures var t := Total(values);
            t.Some? && InUnits(t.value, e) && Units(t.value, e) == u + v
  {
    AddIsExact(a, b, e);
  }

  // The sum is computed, and is the sum of the units.
  ghost predicate SumsExactly(values: seq<Value>, e: int)
    requires AllInUnits(values, e)
  {
    var t := Total(values);
    t.Some? && InUnits(t.value, e) && Units(t.value, e) == SumOf(UnitList(values, e))
  }

  lemma SumFollows(values: seq<Value>, e: int)
    requires values != [] && AllInUnits(values, e) && AllInUnits(Front(values), e) && SumsExactly(Front(values), e)
    requires MagnitudeOf(UnitList(values, e)) < Pow10(PRECISION)
    ensures SumsExactly(values, e)
  {
    UnitListFront(values, e);
    SumBelowMagnitude(UnitList(values, e));
    TotalStep(values, Total(Front(values)).value, DecimalOf(Last(values)).value, e,
              SumOf(UnitList(Front(values), e)), Units(DecimalOf(Last(values)).value, e));
  }

  /** A sum of any length, in any order, is exact while its total magnitude is below 10^28 units. */
  lemma {:induction false} TotalIsExact(values: seq<Value>, e: int)
    requires AllInUnits(values, e) && MagnitudeOf(UnitList(values, e)) < Pow10(PRECISION)
    ensures SumsExactly(values, e)
  {
    if values == [] {
      EmptyTotal(values, e);
    } else {
      UnitListFront(values, e);
      TotalIsExact(Front(values), e);
      SumFollows(values, e);
    }
  }

  lemma {:induction false} SumSplit(a: seq<int>, b: seq<int>)
    ensures SumOf(a + b) == SumOf(a) + SumOf(b)
    ensures MagnitudeOf(a + b) == MagnitudeOf(a) + MagnitudeOf(b)
  {
    if b == [] {
      assert a + b == a;
    } else {
      assert (a + b)[..|a + b| - 1] == a + b[..|b| - 1];
      SumSplit(a, b[..|b| - 1]);
    }
  }

  lemma SumDrop(a: seq<int>, j: nat)
    requires j < |a|
    ensures SumOf(a) == SumOf(a[..j] + a[j + 1..]) + a[j]
    ensures MagnitudeOf(a) == MagnitudeOf(a[..j] + a[j + 1..]) + Abs(a[j])
  {
    assert a == (a[..j] + [a[j]]) + a[j + 1..] && [a[j]][..0] == [];
    SumSplit(a[..j] + [a[j]], a[j + 1..]);
    SumSplit(a[..j], [a[j]]);
    SumSplit(a[..j], a[j + 1..]);
  }

  lemma {:induction false} SumPermutes(a: seq<int>, b: seq<int>)
    requires multiset(a) == multiset(b)
    ensures SumOf(a) == SumOf(b) && MagnitudeOf(a) == MagnitudeOf(b)
    decreases |a|
  {
    assert |multiset(a)| == |a| && |multiset(b)| == |b|;
    if a != [] {
      var n := |a| - 1;
      assert a[n] in multiset(b);
      var j :| 0 <= j < |b| && b[j] == a[n];
      Reconciliation.Drop(a, n);
      Reconciliation.Drop(b, j);
      assert a[..n] + a[n + 1..] == a[..n];
      Reconciliation.Cancel(multiset(a[..n]), multiset(b[..j] + b[j + 1..]), a[n]);
      SumPermutes(a[..n], b[..j] + b[j + 1..]);
      SumDrop(b, j);
    }
  }
}
