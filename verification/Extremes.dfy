/** min and max over canonical values. Where a column's text determines the number it is
    compared by, the text of the extreme value depends only on which texts occur. */
module Extremes {
  import opened Models
  import opened Decimals
  import opened DecimalText
  import DebeziumDecimal
  import opened Canonical
  import Orders
  import opened Reconciliation

  // What kind of comparison a value takes part in.
  datatype Comparable = AsText | AsNumber | AsDay | AsInstant(aware: bool) | Never

  function ComparedAs(v: Value): Comparable {
    match v
    case Text(_) => AsText
    case Integer(_) => AsNumber
    case Decimal(_) => AsNumber
    case Boolean(_) => AsNumber
    case Date(_) => AsDay
    case Timestamp(_, aware) => AsInstant(aware)
    case _ => Never
  }

  /** Two values compare exactly when both are texts, both numbers or truth values, both dates, or
      both timestamps with or without a time zone alike; texts in their order, the others by number. */
  lemma ComparableExactlyWhen(a: Value, b: Value)
    ensures Less(a, b).Some? <==> ComparedAs(a) == ComparedAs(b) && !ComparedAs(a).Never?
    ensures Less(a, b).Some? && a.Text? ==> (Less(a, b).value <==> Orders.TextBelow(a.text, b.text))
    ensures Less(a, b).Some? && a.Integer? && b.Integer? ==> (Less(a, b).value <==> a.number < b.number)
    ensures Less(a, b).Some? && a.Date? ==> (Less(a, b).value <==> a.day < b.day)
    ensures Less(a, b).Some? && a.Timestamp? ==> (Less(a, b).value <==> a.micros < b.micros)
    ensures Less(a, b).Some? && a.Boolean? && b.Boolean? ==> (Less(a, b).value <==> !a.flag && b.flag)
  {
    assert Pow10(0) == 1;
  }

  lemma NumLessAt(a: Dec, b: Dec, e: int)
    requires e <= a.exp && e <= b.exp
    ensures NumLess(a, b) <==> Scaled(a, e) < Scaled(b, e)
  {
    var m := Min(a.exp, b.exp);
    ScaledLower(a, m, e);
    ScaledLower(b, m, e);
    if Scaled(a, m) < Scaled(b, m) { MulBelow(Scaled(a, m), Scaled(b, m), Pow10(m - e)); }
    if Scaled(b, m) < Scaled(a, m) { MulBelow(Scaled(b, m), Scaled(a, m), Pow10(m - e)); }
  }

  /** Comparison of decimals is a total order up to numerical equality. */
  lemma NumLessOrder(a: Dec, b: Dec, c: Dec)
    ensures NumEq(a, b) <==> !NumLess(a, b) && !NumLess(b, a)
    ensures !NumLess(a, b) && !NumLess(b, c) ==> !NumLess(a, c)
    ensures NumLess(a, b) ==> !NumLess(b, a)
  {
    var e := Min(a.exp, Min(b.exp, c.exp));
    NumLessAt(a, b, e);
    NumLessAt(b, a, e);
    NumLessAt(b, c, e);
    NumLessAt(a, c, e);
    NumEqAt(a, b, e);
  }

  // Values of a column whose text is a normal form of the number they are compared by.
  ghost predicate Plain(v: Value, kind: CanonicalType) {
    match kind
    case TextType => false
    case DateType => v.Date?
    case TimestampType => v.Timestamp? && v.aware
    case DecimalType => (v.Decimal? || v.Integer?) && Significant(Magnitude(v).value) <= PRECISION
    case BooleanType => v.Boolean?
    case IntegerType => v.Integer?
  }

  lemma IntTextReads(n: int)
    ensures ReadFixed(IntText(n)) == Some(DebeziumDecimal.OfInt(n))
  {
    var m := if n < 0 then -n else n;
    NatRoundTrip(m);
    WholeReads(NatText(m), n < 0);
    assert Sign(n < 0) + NatText(m) == IntText(n);
  }

  // The number a canonical text shows behind its type tag.
  function Shown(text: string): Option<Dec> { if |text| < 2 then None else ReadFixed(text[2..]) }

  lemma IntShown(tag: string, n: int)
    requires |tag| == 2
    ensures Shown(tag + IntText(n)) == Some(DebeziumDecimal.OfInt(n))
  {
    assert (tag + IntText(n))[2..] == IntText(n);
    IntTextReads(n);
  }

  lemma DecShown(d: Dec)
    requires Significant(d) <= PRECISION
    ensures Shown("M:" + CanonicalText(d)).Some? && NumEq(Shown("M:" + CanonicalText(d)).value, d)
  {
    assert ("M:" + CanonicalText(d))[2..] == CanonicalText(d);
    CanonicalTextReads(d);
    RoundExactExactlyWhen(d);
    NumEqTransitive(ReadFixed(CanonicalText(d)).value, Round(d), d);
  }

  /** The text of a plain value shows the number it is compared by. */
  lemma TextShowsNumber(lib: Library, v: Value, kind: CanonicalType)
    requires Plain(v, kind)
    ensures Canonicalize(lib, v, kind).Some? && Magnitude(v).Some?
    ensures var t := Canonicalize(lib, v, kind).value;
            Shown(t).Some? && NumEq(Shown(t).value, Magnitude(v).value)
  {
    var d := Magnitude(v).value;
    NumEqTransitive(d, d, d);
    match kind
    case DateType => IntShown("D:", v.day);
    case TimestampType => IntShown("T:", v.micros);
    case DecimalType => DecShown(d);
    case BooleanType =>
      IntShown("B:", if v.flag then 1 else 0);
      assert NatText(1) == "1" && NatText(0) == "0";
      assert "B:" + "1" == "B:1" && "B:" + "0" == "B:0";
    case IntegerType => IntShown("I:", v.number);
  }

  /** Plain values of one column have one text exactly when they are one number. */
  lemma NumberDecidesText(lib: Library, v: Value, w: Value, kind: CanonicalType)
    requires Plain(v, kind) && Plain(w, kind)
    ensures Magnitude(v).Some? && Magnitude(w).Some?
    ensures Canonicalize(lib, v, kind) == Canonicalize(lib, w, kind) <==> NumEq(Magnitude(v).value, Magnitude(w).value)
  {
    TextShowsNumber(lib, v, kind);
    TextShowsNumber(lib, w, kind);
    var x, y := Magnitude(v).value, Magnitude(w).value;
    var t := Shown(Canonicalize(lib, v, kind).value).value;
    NumEqTransitive(t, x, y);
    NumEqTransitive(x, t, y);
    if NumEq(x, y) {
      if kind.DecimalType? {
        CanonicalTextIsFaithful(x, y);
      } else {
        NumbersAlike(v, w, kind);
      }
    }
  }

  lemma NumbersAlike(v: Value, w: Value, kind: CanonicalType)
    requires Plain(v, kind) && Plain(w, kind) && !kind.DecimalType?
    requires NumEq(Magnitude(v).value, Magnitude(w).value)
    ensures v == w
  {
  }

  // No element is beyond x in the chosen direction.
  ghost predicate Bounds(values: seq<Value>, x: Value, largest: bool)
    requires Magnitude(x).Some? && forall v :: v in values ==> Magnitude(v).Some?
  {
    forall v :: v in values ==>
      if largest then !NumLess(Magnitude(x).value, Magnitude(v).value)
          else !NumLess(Magnitude(v).value, Magnitude(x).value)
  }

  ghost predicate AllPlain(values: seq<Value>, kind: CanonicalType) { forall v :: v in values ==> Plain(v, kind) }

  lemma PlainComparable(v: Value, w: Value, kind: CanonicalType)
    requires Plain(v, kind) && Plain(w, kind)
    ensures Magnitude(v).Some? && Magnitude(w).Some?
    ensures Less(v, w) == Some(NumLess(Magnitude(v).value, Magnitude(w).value))
  {
  }

  lemma AllComparable(values: seq<Value>, kind: CanonicalType)
    requires AllPlain(values, kind)
    ensures forall v :: v in values ==> Magnitude(v).Some?
  {
  }

  // What is not beyond the best of the front is not beyond the better of it and the last.
  lemma BoundsStep(front: seq<Value>, best: Value, last: Value, v: Value, largest: bool, kind: CanonicalType)
    requires AllPlain(front, kind) && Plain(best, kind) && Plain(last, kind) && Plain(v, kind)
    requires Magnitude(best).Some? && Bounds([v], best, largest)
    ensures Magnitude(last).Some?
    ensures var better := if largest then NumLess(Magnitude(best).value, Magnitude(last).value)
                          else NumLess(Magnitude(last).value, Magnitude(best).value);
            Bounds([v], if better then last else best, largest)
                && Bounds([last], if better then last else best, largest)
  {
    PlainComparable(best, last, kind);
    PlainComparable(v, last, kind);
    var x, b, l := Magnitude(v).value, Magnitude(best).value, Magnitude(last).value;
    assert v in [v];
    NumLessOrder(l, b, x);
    NumLessOrder(x, b, l);
    NumLessOrder(b, l, l);
    NumLessOrder(l, l, l);
    NumEqTransitive(l, l, l);
  }

  lemma {:induction false} ExtremeBounds(values: seq<Value>, largest: bool, kind: CanonicalType)
    requires values != [] && AllPlain(values, kind)
    ensures Extreme(values, largest).Some? && Extreme(values, largest).value in values
    ensures Magnitude(Extreme(values, largest).value).Some? && forall v :: v in values ==> Magnitude(v).Some?
    ensures Bounds(values, Extreme(values, largest).value, largest)
  {
    AllComparable(values, kind);
    var last := values[|values| - 1];
    if |values| == 1 {
      NumLessOrder(Magnitude(last).value, Magnitude(last).value, Magnitude(last).value);
    } else {
      var front := values[..|values| - 1];
      ExtremeBounds(front, largest, kind);
      var best := Extreme(front, largest).value;
      PlainComparable(best, last, kind);
      PlainComparable(last, best, kind);
      var x := Extreme(values, largest).value;
      forall v | v in values
        ensures if largest then !NumLess(Magnitude(x).value, Magnitude(v).value)
                else !NumLess(Magnitude(v).value, Magnitude(x).value)
      {
        if v in front {
          BoundsStep(front, best, last, v, largest, kind);
          assert v in [v];
        } else {
          BoundsStep(front, best, last, best, largest, kind);
          assert last in [last];
        }
      }
    }
  }

  // The text of a value, for values that have one.
  function TextOf(lib: Library, kind: CanonicalType): Value -> string {
    (v: Value) => var t := Canonicalize(lib, v, kind); if t.Some? then t.value else ""
  }

  lemma SameTextSomewhere(lib: Library, u: seq<Value>, w: seq<Value>, kind: CanonicalType, x: Value) returns (y: Value)
    requires AllPlain(u, kind) && AllPlain(w, kind) && x in u
    requires multiset(Images(u, TextOf(lib, kind))) == multiset(Images(w, TextOf(lib, kind)))
    ensures y in w && Magnitude(x).Some? && Magnitude(y).Some? && NumEq(Magnitude(x).value, Magnitude(y).value)
  {
    var s, t := Images(u, TextOf(lib, kind)), Images(w, TextOf(lib, kind));
    var i :| 0 <= i < |u| && u[i] == x;
    assert s[i] in multiset(s) && s[i] in multiset(t);
    var j :| 0 <= j < |t| && t[j] == s[i];
    y := w[j];
    TextShowsNumber(lib, x, kind);
    TextShowsNumber(lib, y, kind);
    NumberDecidesText(lib, x, y, kind);
  }

  lemma NotBeyond(lib: Library, u: seq<Value>, w: seq<Value>, kind: CanonicalType, x: Value, largest: bool)
    requires w != [] && AllPlain(u, kind) && AllPlain(w, kind) && x in u
    requires multiset(Images(u, TextOf(lib, kind))) == multiset(Images(w, TextOf(lib, kind)))
    ensures Extreme(w, largest).Some? && Plain(Extreme(w, largest).value, kind) && Plain(x, kind)
    ensures var y := Extreme(w, largest).value;
            Bounds([x], y, largest)
  {
    var z := SameTextSomewhere(lib, u, w, kind, x);
    ExtremeBounds(w, largest, kind);
    var y := Magnitude(Extreme(w, largest).value).value;
    NumLessOrder(Magnitude(x).value, Magnitude(z).value, y);
    NumLessOrder(Magnitude(z).value, Magnitude(x).value, y);
    NumLessOrder(y, Magnitude(z).value, Magnitude(x).value);
    NumEqTransitive(Magnitude(x).value, Magnitude(z).value, Magnitude(x).value);
  }

  /** The text of the extreme value depends only on the multiset of texts. */
  lemma ExtremeByTexts(lib: Library, u: seq<Value>, w: seq<Value>, kind: CanonicalType, largest: bool)
    requires u != [] && w != [] && AllPlain(u, kind) && AllPlain(w, kind)
    requires multiset(Images(u, TextOf(lib, kind))) == multiset(Images(w, TextOf(lib, kind)))
    ensures Extreme(u, largest).Some? && Extreme(w, largest).Some?
    ensures Canonicalize(lib, Extreme(u, largest).value, kind).Some?
    ensures Canonicalize(lib, Extreme(u, largest).value, kind) == Canonicalize(lib, Extreme(w, largest).value, kind)
  {
    ExtremeBounds(u, largest, kind);
    ExtremeBounds(w, largest, kind);
    var x, y := Extreme(u, largest).value, Extreme(w, largest).value;
    NotBeyond(lib, u, w, kind, x, largest);
    NotBeyond(lib, w, u, kind, y, largest);
    assert x in [x] && y in [y];
    NumLessOrder(Magnitude(x).value, Magnitude(y).value, Magnitude(x).value);
    TextShowsNumber(lib, x, kind);
    NumberDecidesText(lib, x, y, kind);
  }
}
