/** Python's decimals as the validator and the parser use them: rounding to 28 significant
    digits, normalize, fixed-point text, and the numbers these texts stand for. */
module Decimals {

  // sign, coefficient and exponent: (-1)^negative * coef * 10^exp
  datatype Dec = Dec(negative: bool, coef: nat, exp: int)

  const PRECISION := 28

  function Pow10(n: nat): (p: nat)
    ensures p >= 1
  {
    if n == 0 then 1 else 10 * Pow10(n - 1)
  }

  lemma {:induction false} Pow10Add(a: nat, b: nat)
    ensures Pow10(a + b) == Pow10(a) * Pow10(b)
  {
    if a > 0 {
      Pow10Add(a - 1, b);
      MulAssoc(10, Pow10(a - 1), Pow10(b));
    }
  }

  lemma MulAssoc(a: int, b: int, c: int)
    ensures a * (b * c) == (a * b) * c
  {
  }

  function Signed(d: Dec): int { if d.negative then 0 - d.coef else d.coef }

  // The value as a multiple of 10^e, for an exponent at or below the decimal's own.
  function Scaled(d: Dec, e: int): int
    requires e <= d.exp
  {
    Signed(d) * Pow10(d.exp - e)
  }

  function Min(a: int, b: int): int { if a < b then a else b }

  // Numerical equality, which ignores trailing zeros and the sign of zero.
  predicate NumEq(a: Dec, b: Dec) {
    Scaled(a, Min(a.exp, b.exp)) == Scaled(b, Min(a.exp, b.exp))
  }

  lemma MulCancel(x: int, y: int, p: nat)
    requires p >= 1
    ensures x * p == y * p <==> x == y
  {
  }

  lemma {:induction false} MulBelow(x: int, y: int, p: nat)
    requires p >= 1 && x < y
    ensures x * p + p <= y * p
  {
    if p > 1 {
      MulBelow(x, y, p - 1);
      assert x * p == x * (p - 1) + x && y * p == y * (p - 1) + y;
    }
  }

  lemma ScaledLower(d: Dec, m: int, e: int)
    requires e <= m <= d.exp
    ensures Scaled(d, e) == Scaled(d, m) * Pow10(m - e)
  {
    Pow10Add(d.exp - m, m - e);
    MulAssoc(Signed(d), Pow10(d.exp - m), Pow10(m - e));
  }

  // Any common exponent decides numerical equality.
  lemma NumEqAt(a: Dec, b: Dec, e: int)
    requires e <= a.exp && e <= b.exp
    ensures NumEq(a, b) <==> Scaled(a, e) == Scaled(b, e)
  {
    var m := Min(a.exp, b.exp);
    ScaledLower(a, m, e);
    ScaledLower(b, m, e);
    MulCancel(Scaled(a, m), Scaled(b, m), Pow10(m - e));
  }

  lemma NumEqTransitive(a: Dec, b: Dec, c: Dec)
    ensures NumEq(a, a) && (NumEq(a, b) <==> NumEq(b, a))
    ensures NumEq(a, b) && NumEq(b, c) ==> NumEq(a, c)
  {
    var e := Min(a.exp, Min(b.exp, c.exp));
    NumEqAt(a, b, e);
    NumEqAt(b, c, e);
    NumEqAt(a, c, e);
  }

  // ---- trailing zeros ------------------------------------------------------------------------

  // Trailing zeros moved into the exponent; zero becomes 0 with exponent 0.
  function Strip(d: Dec): (r: Dec)
    ensures r.coef == 0 <==> d.coef == 0
    ensures r.negative == d.negative
    ensures if r.coef == 0 then r.exp == 0 else r.coef % 10 != 0
    decreases d.coef
  {
    if d.coef == 0 then Dec(d.negative, 0, 0)
    else if d.coef % 10 == 0 then Strip(Dec(d.negative, d.coef / 10, d.exp + 1))
    else d
  }

  lemma {:induction false} StripKeepsValue(d: Dec)
    ensures NumEq(Strip(d), d)
    decreases d.coef
  {
    if d.coef == 0 {
      assert Signed(d) == 0 && Signed(Strip(d)) == 0;
    } else if d.coef % 10 == 0 {
      var s := Dec(d.negative, d.coef / 10, d.exp + 1);
      StripKeepsValue(s);
      assert Pow10(1) == 10 && Scaled(s, d.exp) == Scaled(d, d.exp);
      NumEqTransitive(Strip(d), s, d);
    } else {
      NumEqTransitive(d, d, d);
    }
  }

  lemma MulTens(c: int, p: nat)
    requires p % 10 == 0
    ensures (c * p) % 10 == 0
  {
    assert c * p == 10 * (c * (p / 10));
  }

  // No two stripped decimals have one value.
  lemma StrippedUnique(a: Dec, b: Dec)
    requires a.coef % 10 != 0 && b.coef % 10 != 0 && NumEq(a, b)
    ensures a == b
  {
    if a.exp == b.exp {
      assert Pow10(0) == 1;
    } else if a.exp < b.exp {
      StrippedGap(a, b);
    } else {
      NumEqTransitive(a, b, a);
      StrippedGap(b, a);
    }
  }

  lemma StrippedGap(a: Dec, b: Dec)
    requires a.exp < b.exp && NumEq(a, b)
    ensures a.coef % 10 == 0
  {
    var p := Pow10(b.exp - a.exp);
    assert Pow10(0) == 1;
    MulTens(Signed(b), p);
    assert Signed(a) == Signed(b) * p;
  }

  lemma ZeroByValue(a: Dec, b: Dec)
    requires NumEq(a, b)
    ensures a.coef == 0 <==> b.coef == 0
  {
  }

  /** Equal values, and only these, have one stripped form; zero keeps its sign only. */
  lemma StripDecides(a: Dec, b: Dec)
    ensures NumEq(a, b) <==> Strip(a) == Strip(b) || (a.coef == 0 && b.coef == 0)
  {
    StripKeepsValue(a);
    StripKeepsValue(b);
    NumEqTransitive(Strip(a), a, b);
    NumEqTransitive(Strip(a), b, Strip(b));
    NumEqTransitive(a, Strip(a), Strip(b));
    NumEqTransitive(a, Strip(b), b);
    if NumEq(a, b) {
      ZeroByValue(a, b);
      if a.coef != 0 { StrippedUnique(Strip(a), Strip(b)); }
    }
    if a.coef == 0 && b.coef == 0 { assert Signed(a) == 0 && Signed(b) == 0; }
  }

  // ---- rounding to the context's precision ------------------------------------------------------

  // Number of decimal digits; 1 for zero.
  function Digits(n: nat): (k: nat)
    ensures k >= 1
  {
    if n < 10 then 1 else 1 + Digits(n / 10)
  }

  lemma {:induction false} DigitsBound(n: nat, k: nat)
    requires k >= 1
    ensures n < Pow10(k) <==> Digits(n) <= k
  {
    if n < 10 {
      assert Pow10(k) >= 10;
    } else if k > 1 {
      DigitsBound(n / 10, k - 1);
      assert n < 10 * Pow10(k - 1) <==> n / 10 < Pow10(k - 1);
    } else {
      assert Pow10(1) == 10;
    }
  }

  function Quot(n: nat, p: nat): nat
    requires p >= 1
  {
    n / p
  }

  function Rem(n: nat, p: nat): nat
    requires p >= 1
  {
    n % p
  }

  lemma QuotRem(n: nat, p: nat)
    requires p >= 1
    ensures n == Quot(n, p) * p + Rem(n, p) && Rem(n, p) < p
  {
  }

  lemma QuotUnique(n: nat, p: nat, q: nat, r: nat)
    requires p >= 1 && r < p && n == q * p + r
    ensures Quot(n, p) == q && Rem(n, p) == r
  {
    QuotRem(n, p);
    if q < Quot(n, p) { MulBelow(q, Quot(n, p), p); }
    if Quot(n, p) < q { MulBelow(Quot(n, p), q, p); }
  }

  // ROUND_HALF_EVEN of n / 10^k
  function HalfEven(n: nat, k: nat): nat {
    var p := Pow10(k);
    var q, r := Quot(n, p), Rem(n, p);
    if 2 * r > p || (2 * r == p && q % 2 == 1) then q + 1 else q
  }

  // Half-even to `precision` digits; a carry past them costs one more digit.
  function RoundTo(d: Dec, precision: nat): Dec
    requires precision >= 1
  {
    var n := Digits(d.coef);
    if n <= precision then d
    else
      var q := HalfEven(d.coef, n - precision);
      if q == Pow10(precision) then Dec(d.negative, Pow10(precision - 1), d.exp + (n - precision) + 1)
      else Dec(d.negative, q, d.exp + (n - precision))
  }

  // What every context operation does to its result.
  function Round(d: Dec): Dec { RoundTo(d, PRECISION) }

  // Digits that are not trailing zeros.
  function Significant(d: Dec): nat { if d.coef == 0 then 0 else Digits(Strip(d).coef) }

  lemma RoundIsNear(d: Dec, precision: nat)
    requires precision >= 1 && Digits(d.coef) > precision
    ensures var k := Digits(d.coef) - precision;
            NumEq(RoundTo(d, precision), Dec(d.negative, HalfEven(d.coef, k), d.exp + k))
  {
    var k := Digits(d.coef) - precision;
    var r, q := RoundTo(d, precision), Dec(d.negative, HalfEven(d.coef, k), d.exp + k);
    if q.coef == Pow10(precision) {
      CarryKeepsValue(r, q, precision);
    } else {
      NumEqTransitive(q, q, q);
    }
  }

  lemma NextPower(k: nat)
    requires k >= 1
    ensures Pow10(k) == 10 * Pow10(k - 1)
  {
  }

  lemma CarryKeepsValue(r: Dec, q: Dec, n: nat)
    requires n >= 1 && q.coef == Pow10(n) && r.coef == Pow10(n - 1)
    requires r.negative == q.negative && r.exp == q.exp + 1
    ensures NumEq(r, q)
  {
    NextPower(n);
    assert Pow10(0) == 1 && Pow10(1) == 10;
  }

  /** Rounding goes to the nearest number of the kept digits, and to the even one of two that are
      equally near. */
  lemma HalfEvenIsNearest(n: nat, k: nat)
    ensures var p, q := Pow10(k), HalfEven(n, k);
            && 2 * (n - q * p) <= p && 2 * (q * p - n) <= p
            && (2 * (n - q * p) == p || 2 * (q * p - n) == p ==> q % 2 == 0)
  {
    var p := Pow10(k);
    var q, r := Quot(n, p), Rem(n, p);
    QuotRem(n, p);
    NextMultiple(q, p);
  }

  lemma NextMultiple(q: int, p: int)
    ensures (q + 1) * p == q * p + p
  {
  }

  // Dropping k digits is exact precisely when they are zeros.
  lemma HalfEvenExact(n: nat, k: nat)
    ensures HalfEven(n, k) * Pow10(k) == n <==> Rem(n, Pow10(k)) == 0
    ensures Rem(n, Pow10(k)) == 0 ==> HalfEven(n, k) == Quot(n, Pow10(k))
  {
    var p := Pow10(k);
    var q := Quot(n, p);
    QuotRem(n, p);
    assert (q + 1) * p == q * p + p;
  }

  lemma StripTen(m: nat, e: int, negative: bool)
    ensures m > 0 ==> Strip(Dec(negative, 10 * m, e)) == Strip(Dec(negative, m, e + 1))
  {
  }

  lemma {:induction false} StripZeros(m: nat, k: nat, e: int, negative: bool)
    requires m > 0
    ensures Strip(Dec(negative, m * Pow10(k), e)) == Strip(Dec(negative, m, e + k))
  {
    if k > 0 {
      StripZeros(m, k - 1, e + 1, negative);
      MulPositive(m, Pow10(k - 1));
      StripTen(m * Pow10(k - 1), e, negative);
      MulTen(m, Pow10(k - 1));
    }
  }

  lemma MulTen(m: int, p: int)
    ensures m * (10 * p) == 10 * (m * p)
  {
  }

  lemma {:induction false} MulPositive(m: nat, p: nat)
    requires m >= 1 && p >= 1
    ensures m * p >= 1
  {
  }

  // Stripping k digits off an n-digit number leaves at least n - k digits of it.
  lemma {:induction false} StrippedEnough(d: Dec, k: nat)
    requires d.coef != 0 && Strip(d).exp - d.exp >= k
    ensures Rem(d.coef, Pow10(k)) == 0 && Strip(Dec(d.negative, Quot(d.coef, Pow10(k)), d.exp + k)) == Strip(d)
    decreases k
  {
    StripsBack(d);
    var s := Strip(d);
    var t := s.exp - d.exp;
    Pow10Add(t - k, k);
    MulAssoc(s.coef, Pow10(t - k), Pow10(k));
    MulPositive(s.coef, Pow10(t - k));
    StrippedMultiple(d, s.coef * Pow10(t - k), k);
  }

  lemma StrippedMultiple(d: Dec, m: nat, k: nat)
    requires m > 0 && d.coef == m * Pow10(k)
    ensures Rem(d.coef, Pow10(k)) == 0 && Strip(Dec(d.negative, Quot(d.coef, Pow10(k)), d.exp + k)) == Strip(d)
  {
    QuotUnique(d.coef, Pow10(k), m, 0);
    StripZeros(m, k, d.exp, d.negative);
  }

  // The coefficient is the stripped coefficient with its zeros put back.
  lemma {:induction false} StripsBack(d: Dec)
    requires d.coef != 0
    ensures var s := Strip(d); s.exp >= d.exp && d.coef == s.coef * Pow10(s.exp - d.exp)
    decreases d.coef
  {
    if d.coef % 10 == 0 {
      var n := Dec(d.negative, d.coef / 10, d.exp + 1);
      StripsBack(n);
      var s := Strip(d);
      NextPower(s.exp - d.exp);
      MulTen(s.coef, Pow10(s.exp - n.exp));
    } else {
      assert Pow10(0) == 1;
    }
  }

  lemma {:induction false} DigitsScale(m: nat, k: nat)
    requires m >= 1
    ensures Digits(m * Pow10(k)) == Digits(m) + k
  {
    if k > 0 {
      DigitsScale(m, k - 1);
      MulPositive(m, Pow10(k - 1));
      DigitsTen(m * Pow10(k - 1));
      MulTen(m, Pow10(k - 1));
    }
  }

  lemma DigitsTen(m: nat)
    requires m >= 1
    ensures Digits(10 * m) == Digits(m) + 1
  {
  }

  /** Rounding to the context's 28 digits keeps the value exactly when the number has at
      most 28 significant digits. */
  lemma RoundExactExactlyWhen(d: Dec)
    ensures NumEq(Round(d), d) <==> Significant(d) <= PRECISION
  {
    var n := Digits(d.coef);
    if n <= PRECISION {
      NumEqTransitive(d, d, d);
      if d.coef != 0 { FewDigits(d); }
    } else {
      var k := n - PRECISION;
      var q := Dec(d.negative, HalfEven(d.coef, k), d.exp + k);
      RoundIsNear(d, PRECISION);
      NumEqTransitive(Round(d), q, d);
      NumEqTransitive(q, Round(d), d);
      NumEqTransitive(Round(d), d, q);
      assert Pow10(0) == 1;
      assert Scaled(d, d.exp) == Signed(d) && Scaled(q, d.exp) == Signed(q) * Pow10(k);
      HalfEvenExact(d.coef, k);
      SignedMul(q, Pow10(k));
      ZerosDecide(d, k);
    }
  }

  lemma SignedMul(d: Dec, p: nat)
    ensures Signed(d) * p == if d.negative then 0 - d.coef * p else d.coef * p
  {
  }

  lemma FewDigits(d: Dec)
    requires d.coef != 0
    ensures Digits(Strip(d).coef) <= Digits(d.coef)
  {
    StripsBack(d);
    DigitsScale(Strip(d).coef, Strip(d).exp - d.exp);
  }

  lemma ZerosDecide(d: Dec, k: nat)
    requires Digits(d.coef) == PRECISION + k && k >= 1
    ensures Rem(d.coef, Pow10(k)) == 0 <==> Significant(d) <= PRECISION
  {
    StripsBack(d);
    var s := Strip(d);
    DigitsScale(s.coef, s.exp - d.exp);
    if s.exp - d.exp >= k {
      StrippedEnough(d, k);
    } else if Rem(d.coef, Pow10(k)) == 0 {
      QuotRem(d.coef, Pow10(k));
      var m := Quot(d.coef, Pow10(k));
      StripZeros(m, k, d.exp, d.negative);
      StripsBack(Dec(d.negative, m, d.exp + k));
    }
  }
}
