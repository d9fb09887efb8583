/** Fixed-point texts of decimals: `_decimal_text` of the validator, reading such a text
    back, and why canonical text is a normal form of the number. */
module DecimalText {
  import opened Models
  import opened Decimals

  predicate IsDigit(c: char) { '0' <= c <= '9' }

  predicate AllDigits(s: string) { forall i :: 0 <= i < |s| ==> IsDigit(s[i]) }

  function DigitChar(n: nat): (c: char)
    requires n < 10
    ensures IsDigit(c) && c as int - '0' as int == n
  {
    ('0' as int + n) as char
  }

  // str(n)
  function NatText(n: nat): (s: string)
    ensures AllDigits(s) && |s| == Digits(n)
  {
    if n < 10 then [DigitChar(n)] else NatText(n / 10) + [DigitChar(n % 10)]
  }

  // int(s), reading nothing as 0
  function NatOf(s: string): nat
    requires AllDigits(s)
  {
    if s == "" then 0 else 10 * NatOf(s[..|s| - 1]) + (s[|s| - 1] as int - '0' as int)
  }

  lemma {:induction false} NatRoundTrip(n: nat)
    ensures NatOf(NatText(n)) == n
  {
    if n >= 10 {
      assert NatText(n)[..|NatText(n)| - 1] == NatText(n / 10);
      NatRoundTrip(n / 10);
    } else {
      assert NatText(n)[..0] == "";
    }
  }

  function Zeros(k: nat): (s: string)
    ensures |s| == k && AllDigits(s)
  {
    if k == 0 then "" else Zeros(k - 1) + "0"
  }

  lemma NatOfPush(s: string, c: char)
    requires AllDigits(s) && IsDigit(c)
    ensures AllDigits(s + [c]) && NatOf(s + [c]) == 10 * NatOf(s) + (c as int - '0' as int)
  {
    assert (s + [c])[..|s|] == s;
  }

  lemma Shifted(x: int, p: int, y: int, c: int)
    ensures 10 * (x * p + y) + c == x * (10 * p) + (10 * y + c)
  {
  }

  lemma {:induction false} NatOfAppend(a: string, b: string)
    requires AllDigits(a) && AllDigits(b)
    ensures AllDigits(a + b) && NatOf(a + b) == NatOf(a) * Pow10(|b|) + NatOf(b)
  {
    if b == "" {
      assert a + b == a;
    } else {
      var front, c := b[..|b| - 1], b[|b| - 1];
      NatOfAppend(a, front);
      assert a + b == (a + front) + [c] && b == front + [c];
      NatOfPush(a + front, c);
      NatOfPush(front, c);
      Shifted(NatOf(a), Pow10(|front|), NatOf(front), c as int - '0' as int);
    }
  }

  lemma {:induction false} ZerosAreZero(k: nat)
    ensures NatOf(Zeros(k)) == 0
  {
    if k > 0 {
      assert Zeros(k)[..k - 1] == Zeros(k - 1);
      ZerosAreZero(k - 1);
    }
  }

  // ---- format(d, "f") ---------------------------------------------------------------------------

  function Sign(negative: bool): string { if negative then "-" else "" }

  // The coefficient's digits, with zeros in front so that a digit stays before the point.
  function Padded(coef: nat, fraction: nat): (s: string)
    ensures AllDigits(s) && |s| > fraction
  {
    var digits := NatText(coef);
    if |digits| > fraction then digits else Zeros(fraction + 1 - |digits|) + digits
  }

  function Fixed(d: Dec): string {
    if d.coef == 0 && d.exp > 0 then Sign(d.negative) + "0"
    else if d.exp >= 0 then Sign(d.negative) + (NatText(d.coef) + Zeros(d.exp))
    else
      var fraction := -d.exp;
      var s := Padded(d.coef, fraction);
      Sign(d.negative) + (s[..|s| - fraction] + "." + s[|s| - fraction..])
  }

  // ---- reading a fixed-point text -----------------------------------------------------------------

  // What precedes the first point, and what follows it if there is one.
  function SplitPoint(s: string): (string, Option<string>) {
    if s == "" then ("", None)
    else if s[0] == '.' then ("", Some(s[1..]))
    else
      var (a, b) := SplitPoint(s[1..]);
      ([s[0]] + a, b)
  }

  lemma {:induction false} SplitPointOf(a: string, b: string)
    requires '.' !in a
    ensures SplitPoint(a + "." + b) == (a, Some(b))
    ensures SplitPoint(a) == (a, None)
  {
    if a == "" {
      assert a + "." + b == "." + b;
      assert ("." + b)[1..] == b;
    } else {
      assert (a + "." + b)[1..] == a[1..] + "." + b;
      SplitPointOf(a[1..], b);
      assert a == [a[0]] + a[1..];
    }
  }

  predicate Readable(whole: string, fraction: Option<string>) {
    AllDigits(whole) && whole != "" && (fraction.Some? ==> AllDigits(fraction.value) && fraction.value != "")
  }

  function ReadUnsigned(s: string, negative: bool): Option<Dec> {
    var (whole, fraction) := SplitPoint(s);
    if !Readable(whole, fraction) then None
    else if fraction.None? then Some(Dec(negative, NatOf(whole), 0))
    else if !AllDigits(whole + fraction.value) then None
    else Some(Dec(negative, NatOf(whole + fraction.value), -|fraction.value|))
  }

  // Decimal(s) for texts without an exponent.
  function ReadFixed(s: string): Option<Dec> {
    if s != "" && s[0] == '-' then ReadUnsigned(s[1..], true) else ReadUnsigned(s, false)
  }

  lemma DigitsHaveNoPoint(s: string)
    requires AllDigits(s)
    ensures '.' !in s && (s != "" ==> s[0] != '-')
  {
  }

  // What a fixed-point text denotes: the decimal itself, or its value with exponent 0.
  function Denoted(d: Dec): Dec {
    if d.exp > 0 then Dec(d.negative, d.coef * Pow10(d.exp), 0) else d
  }

  lemma ReadSigned(negative: bool, s: string)
    requires s != "" && IsDigit(s[0])
    ensures ReadFixed(Sign(negative) + s) == ReadUnsigned(s, negative)
  {
    if negative { assert (Sign(negative) + s)[1..] == s; } else { assert Sign(negative) + s == s; }
  }

  lemma WholeReads(s: string, negative: bool)
    requires AllDigits(s) && s != ""
    ensures ReadFixed(Sign(negative) + s) == Some(Dec(negative, NatOf(s), 0))
  {
    DigitsHaveNoPoint(s);
    SplitPointOf(s, "");
    ReadSigned(negative, s);
  }

  lemma FractionReads(whole: string, fraction: string, negative: bool)
    requires AllDigits(whole) && AllDigits(fraction) && whole != "" && fraction != ""
    ensures AllDigits(whole + fraction)
    ensures ReadFixed(Sign(negative) + (whole + "." + fraction))
         == Some(Dec(negative, NatOf(whole + fraction), -|fraction|))
  {
    DigitsHaveNoPoint(whole);
    SplitPointOf(whole, fraction);
    ReadSigned(negative, whole + "." + fraction);
  }

  lemma PaddedReads(coef: nat, fraction: nat)
    ensures NatOf(Padded(coef, fraction)) == coef
  {
    NatRoundTrip(coef);
    PaddedNat(coef, fraction);
  }

  lemma PaddedNat(coef: nat, fraction: nat)
    ensures NatOf(Padded(coef, fraction)) == NatOf(NatText(coef))
  {
    var digits := NatText(coef);
    if |digits| <= fraction { ZerosInFront(fraction + 1 - |digits|, digits); }
  }

  lemma ZerosInFront(k: nat, digits: string)
    requires AllDigits(digits)
    ensures AllDigits(Zeros(k) + digits) && NatOf(Zeros(k) + digits) == NatOf(digits)
  {
    NatOfAppend(Zeros(k), digits);
    ZerosAreZero(k);
    assert 0 * Pow10(|digits|) == 0;
  }

  lemma ZerosBehind(digits: string, k: nat)
    requires AllDigits(digits)
    ensures AllDigits(digits + Zeros(k)) && NatOf(digits + Zeros(k)) == NatOf(digits) * Pow10(k)
  {
    NatOfAppend(digits, Zeros(k));
    ZerosAreZero(k);
  }

  lemma FixedWholeReads(d: Dec)
    requires d.exp >= 0 && (d.coef != 0 || d.exp == 0)
    ensures ReadFixed(Fixed(d)) == Some(Dec(d.negative, d.coef * Pow10(d.exp), 0))
  {
    NatRoundTrip(d.coef);
    ZerosBehind(NatText(d.coef), d.exp);
    WholeReads(NatText(d.coef) + Zeros(d.exp), d.negative);
  }

  lemma Cut(s: string, cut: nat)
    requires AllDigits(s) && 0 < cut < |s|
    ensures AllDigits(s[..cut]) && AllDigits(s[cut..]) && s[..cut] + s[cut..] == s
    ensures s[..cut] != "" && s[cut..] != "" && |s[cut..]| == |s| - cut
  {
  }

  lemma FixedFractionReads(d: Dec)
    requires d.exp < 0
    ensures ReadFixed(Fixed(d)) == Some(d)
  {
    var fraction := -d.exp;
    var s := Padded(d.coef, fraction);
    PaddedReads(d.coef, fraction);
    Cut(s, |s| - fraction);
    FractionReads(s[..|s| - fraction], s[|s| - fraction..], d.negative);
  }

  /** Reading a fixed-point text gives back the number it was made from. */
  lemma FixedReads(d: Dec)
    ensures ReadFixed(Fixed(d)) == Some(Denoted(d))
    ensures NumEq(Denoted(d), d)
  {
    DenotedEq(d);
    if d.coef == 0 && d.exp > 0 {
      WholeReads("0", d.negative);
      assert "0"[..0] == "";
      assert 0 * Pow10(d.exp) == 0;
    } else if d.exp >= 0 {
      FixedWholeReads(d);
      assert Pow10(0) == 1;
    } else {
      FixedFractionReads(d);
    }
  }

  lemma DenotedEq(d: Dec)
    ensures NumEq(Denoted(d), d)
  {
  }

  // ---- canonical text -----------------------------------------------------------------------------

  // normalize(): round, then move trailing zeros into the exponent.
  function Normalize(d: Dec): Dec { Strip(Round(d)) }

  // _decimal_text, for a finite value
  function CanonicalText(d: Dec): string {
    var n := Normalize(d);
    if n.coef == 0 then "0" else Fixed(n)
  }

  // One text denotes one value.
  lemma SameTextSameValue(a: Dec, b: Dec)
    requires Fixed(a) == Fixed(b)
    ensures NumEq(a, b)
  {
    FixedReads(a);
    FixedReads(b);
    NumEqTransitive(Denoted(a), a, b);
    NumEqTransitive(a, Denoted(a), b);
  }

  // Only the text of a zero reads as zero.
  lemma DigitReads(s: string, c: char)
    requires s == [c] && IsDigit(c)
    ensures ReadFixed(s) == Some(Dec(false, c as int - '0' as int, 0))
  {
    assert Sign(false) + s == s && s[..0] == "";
    WholeReads(s, false);
  }

  lemma TextOfZero()
    ensures ReadFixed("0") == Some(Dec(false, 0, 0))
  {
    DigitReads("0", '0');
  }

  lemma NonzeroText(a: Dec)
    requires a.coef != 0
    ensures Fixed(a) != "0"
  {
    FixedReads(a);
    TextOfZero();
    ZeroByValue(Denoted(a), a);
  }

  lemma StrippedTextDecides(a: Dec, b: Dec)
    requires a.coef % 10 != 0 && b.coef % 10 != 0
    ensures Fixed(a) == Fixed(b) ==> a == b
    ensures Fixed(a) != "0"
  {
    NonzeroText(a);
    if Fixed(a) == Fixed(b) {
      SameTextSameValue(a, b);
      StrippedUnique(a, b);
    }
  }

  /** Two decimals have one canonical text exactly when the context's rounding gives them
      one value, whatever their scales, trailing zeros or signs of zero. */
  lemma CanonicalTextDecides(a: Dec, b: Dec)
    ensures CanonicalText(a) == CanonicalText(b) <==> NumEq(Round(a), Round(b))
  {
    StripDecides(Round(a), Round(b));
    var x, y := Normalize(a), Normalize(b);
    ZeroesAlike(Round(a), Round(b));
    if x.coef != 0 && y.coef != 0 {
      StrippedTextDecides(x, y);
    } else if x.coef != 0 {
      StrippedTextDecides(x, x);
    } else if y.coef != 0 {
      StrippedTextDecides(y, y);
    }
  }

  lemma ZeroesAlike(a: Dec, b: Dec)
    ensures NumEq(a, b) ==> (a.coef == 0 <==> b.coef == 0)
  {
  }

  /** Up to 28 significant digits the text is a faithful normal form: one text per number. */
  lemma CanonicalTextIsFaithful(a: Dec, b: Dec)
    requires Significant(a) <= PRECISION && Significant(b) <= PRECISION
    ensures CanonicalText(a) == CanonicalText(b) <==> NumEq(a, b)
  {
    CanonicalTextDecides(a, b);
    RoundExactExactlyWhen(a);
    RoundExactExactlyWhen(b);
    NumEqTransitive(a, Round(a), Round(b));
    NumEqTransitive(a, Round(b), b);
    NumEqTransitive(Round(a), a, b);
    NumEqTransitive(Round(a), b, Round(b));
  }

  /** The text reads back as the rounded value. */
  lemma CanonicalTextReads(d: Dec)
    ensures ReadFixed(CanonicalText(d)).Some? && NumEq(ReadFixed(CanonicalText(d)).value, Round(d))
  {
    var n := Normalize(d);
    StripKeepsValue(Round(d));
    if n.coef == 0 {
      TextOfZero();
      assert Signed(Round(d)) == 0;
    } else {
      FixedReads(n);
      NumEqTransitive(Denoted(n), n, Round(d));
    }
  }

  /** The text denotes the number itself exactly up to 28 significant digits. */
  lemma CanonicalTextExactExactlyWhen(d: Dec)
    ensures ReadFixed(CanonicalText(d)).Some?
    ensures NumEq(ReadFixed(CanonicalText(d)).value, d) <==> Significant(d) <= PRECISION
  {
    CanonicalTextReads(d);
    RoundExactExactlyWhen(d);
    var read := ReadFixed(CanonicalText(d)).value;
    NumEqTransitive(read, Round(d), d);
    NumEqTransitive(read, Round(d), read);
    NumEqTransitive(Round(d), read, d);
  }

  lemma OneApart(n: nat)
    ensures !NumEq(Dec(false, n, 0), Dec(false, n + 1, 0))
  {
  }

  lemma BelowPower(q: nat, k: nat)
    requires Digits(q) == k
    ensures q != Pow10(k)
  {
    DigitsBound(q, k);
  }

  lemma TwoMoreDigits(q: nat, r: nat)
    requires q >= 10 && r < 10
    ensures Digits(q * 100 + r) == Digits(q) + 2
  {
    assert (q * 100 + r) / 10 == q * 10;
  }

  lemma RoundsDown(n: nat, q: nat, r: nat, precision: nat)
    requires n == q * 100 + r && r < 50 && precision >= 1 && Digits(n) == precision + 2 && q != Pow10(precision)
    ensures RoundTo(Dec(false, n, 0), precision) == Dec(false, q, 2)
  {
    assert Pow10(1) == 10 && Pow10(2) == 100;
    QuotUnique(n, 100, q, r);
  }

  lemma DropsTwoDigits(d: Dec, q: nat, r: nat, precision: nat)
    requires precision >= 2 && Digits(q) == precision && r < 10 && d == Dec(false, q * 100 + r, 0)
    ensures RoundTo(d, precision) == Dec(false, q, 2)
  {
    TwoMoreDigits(q, r);
    BelowPower(q, precision);
    RoundsDown(q * 100 + r, q, r, precision);
  }

  // What rounding makes of 28 digits followed by two small ones.
  lemma RoundsAlike(a: Dec, b: Dec, q: nat)
    requires Digits(q) == PRECISION && a == Dec(false, q * 100, 0) && b == Dec(false, q * 100 + 1, 0)
    ensures Round(a) == Round(b)
  {
    DropsTwoDigits(a, q, 0, PRECISION);
    DropsTwoDigits(b, q, 1, PRECISION);
  }

  lemma SameRoundSameText(a: Dec, b: Dec)
    requires Round(a) == Round(b)
    ensures CanonicalText(a) == CanonicalText(b)
  {
  }

  /** Beyond 28 digits different numbers share a text: followed by two more digits, any 28
      digits read alike with 00 and with 01. */
  lemma LongDecimalsCollide(a: Dec, b: Dec, q: nat)
    requires Digits(q) == PRECISION && a == Dec(false, q * 100, 0) && b == Dec(false, q * 100 + 1, 0)
    ensures CanonicalText(a) == CanonicalText(b) && !NumEq(a, b)
  {
    RoundsAlike(a, b, q);
    SameRoundSameText(a, b);
    OneApart(q * 100);
  }
}
