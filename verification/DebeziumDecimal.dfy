/** Decoding a Debezium decimal (src/millrace/streaming/parser.py:268-276) and what the
    canonical text of the decoded value depends on. */
module DebeziumDecimal {
  import opened Models
  import opened Bytes
  import opened Decimals
  import opened DecimalText

  function OfInt(n: int): Dec { Dec(n < 0, if n < 0 then 0 - n else n, 0) }

  // Decimal.scaleb(k)
  function Scaleb(d: Dec, k: int): Dec { Round(d.(exp := d.exp + k)) }

  // _decode_decimal; `encoded` is None when the text is not base64.
  function DecodeDecimal(encoded: Option<seq<Byte>>, scale: nat): Option<string> {
    if encoded.None? || encoded.value == [] then None
    else Some(Fixed(Scaleb(OfInt(SignedValue(encoded.value)), 0 - scale)))
  }

  // unscaled * 10^-scale
  function Exact(unscaled: int, scale: nat): Dec { OfInt(unscaled).(exp := 0 - scale) }

  lemma DecodedText(b: seq<Byte>, n: int, scale: nat, d: Dec)
    requires b != [] && SignedValue(b) == n && d == Exact(n, scale)
    ensures DecodeDecimal(Some(b), scale) == Some(Fixed(Round(d)))
  {
    ScaledExact(OfInt(n), n, scale, d);
    ScalebIs(OfInt(n), 0 - scale, d);
  }

  lemma ScaledExact(whole: Dec, n: int, scale: nat, d: Dec)
    requires whole == OfInt(n) && d == Exact(n, scale)
    ensures d == whole.(exp := whole.exp + (0 - scale))
  {
  }

  lemma ScalebIs(whole: Dec, k: int, d: Dec)
    requires d == whole.(exp := whole.exp + k)
    ensures Scaleb(whole, k) == Round(d)
  {
  }

  lemma ElevenBytes(b: seq<Byte>)
    requires 1 <= |b| <= 11
    ensures Digits(OfInt(SignedValue(b)).coef) <= PRECISION
  {
    TopBit(b);
    PowersGrow(|b|, 11);
    var n := OfInt(SignedValue(b)).coef;
    assert 2 * n <= Pow256(11);
    ElevenIsEnough();
    DigitsBound(n, PRECISION);
  }

  lemma {:induction false} PowersGrow(a: nat, b: nat)
    requires a <= b
    ensures Pow256(a) <= Pow256(b)
  {
    if a < b { PowersGrow(a, b - 1); }
  }

  lemma ElevenIsEnough()
    ensures Pow256(11) < 2 * Pow10(PRECISION)
  {
    assert Pow256(11) == 0x1_0000_0000_0000_0000_0000_00;
    TwentyEight();
  }

  lemma TwentyEight()
    ensures Pow10(PRECISION) == 10_000_000_000_000_000_000_000_000_000
  {
    assert Pow10(7) == 10_000_000;
    Pow10Add(7, 7);
    Pow10Add(14, 14);
  }

  // The number of digits behind the point.
  function FractionDigits(text: string): nat {
    match SplitPoint(text).1
    case None => 0
    case Some(fraction) => |fraction|
  }

  lemma FixedFraction(d: Dec)
    requires d.exp <= 0
    ensures FractionDigits(Fixed(d)) == -d.exp
  {
    if d.exp == 0 {
      var whole := NatText(d.coef) + Zeros(0);
      assert Fixed(d) == Sign(d.negative) + whole;
      assert '.' !in Fixed(d);
      SplitPointOf(Fixed(d), "");
    } else {
      var s := Padded(d.coef, -d.exp);
      var cut := |s| + d.exp;
      var whole := Sign(d.negative) + s[..cut];
      assert '.' !in whole;
      assert Fixed(d) == whole + "." + s[cut..];
      SplitPointOf(whole, s[cut..]);
    }
  }

  /** Up to 11 bytes the decoded text denotes unscaled * 10^-scale exactly, with exactly
      `scale` digits behind the point. */
  lemma DecodingIsExact(b: seq<Byte>, scale: nat)
    requires 1 <= |b| <= 11
    ensures DecodeDecimal(Some(b), scale).Some?
    ensures var text := DecodeDecimal(Some(b), scale).value;
            && ReadFixed(text) == Some(Exact(SignedValue(b), scale))
            && FractionDigits(text) == scale
  {
    ElevenBytes(b);
    var d := Exact(SignedValue(b), scale);
    FixedReads(d);
    FixedFraction(d);
  }

  /** For any number of bytes: the decoded text denotes unscaled * 10^-scale exactly when
      that number has at most 28 significant digits. */
  lemma DecodingIsExactExactlyWhen(b: seq<Byte>, scale: nat)
    requires b != []
    ensures DecodeDecimal(Some(b), scale).Some?
    ensures var exact, read := Exact(SignedValue(b), scale), ReadFixed(DecodeDecimal(Some(b), scale).value);
            read.Some? && (NumEq(read.value, exact) <==> Significant(exact) <= PRECISION)
  {
    var exact := Exact(SignedValue(b), scale);
    DecodedText(b, SignedValue(b), scale, exact);
    ReadsAsRounded(exact, DecodeDecimal(Some(b), scale).value);
  }

  lemma ReadsAsRounded(d: Dec, text: string)
    requires text == Fixed(Round(d))
    ensures ReadFixed(text).Some? && (NumEq(ReadFixed(text).value, d) <==> Significant(d) <= PRECISION)
  {
    FixedReads(Round(d));
    RoundExactExactlyWhen(d);
    var read := Denoted(Round(d));
    NumEqTransitive(read, Round(d), d);
    NumEqTransitive(read, Round(d), read);
    NumEqTransitive(Round(d), read, d);
  }

  /** Decoding inverts encoding, and ignores how often the sign is repeated. */
  lemma DecodingInvertsEncoding(n: int, width: nat, scale: nat)
    requires 1 <= width <= 11 && 2 * n < Pow256(width) && -2 * n <= Pow256(width)
    ensures DecodeDecimal(Some(Encode(n, width)), scale) == Some(Fixed(Exact(n, scale)))
  {
    var b := Encode(n, width);
    SignedRoundTrip(n, width);
    ElevenBytes(b);
    FewDigitsStay(Exact(n, scale));
    DecodedText(b, n, scale, Exact(n, scale));
  }

  /** 1995 and its negative in two bytes, at scale 2. */
  lemma PriceDecodes()
    ensures DecodeDecimal(Some([7, 203]), 2) == Some("19.95")
    ensures DecodeDecimal(Some([248, 53]), 2) == Some("-19.95")
  {
    TwoBytes(7, 203);
    TwoBytes(248, 53);
    assert Exact(1995, 2) == Dec(false, 1995, -2) && Exact(-1995, 2) == Dec(true, 1995, -2);
    CentsText(false);
    CentsText(true);
    DecodedText([7, 203], 1995, 2, Dec(false, 1995, -2));
    DecodedText([248, 53], -1995, 2, Dec(true, 1995, -2));
  }

  lemma CentsText(negative: bool)
    ensures Fixed(Round(Dec(negative, 1995, -2))) == if negative then "-19.95" else "19.95"
  {
    FourDigits();
    FewDigitsStay(Dec(negative, 1995, -2));
    assert Padded(1995, 2) == "1995" && "1995"[..2] == "19" && "1995"[2..] == "95";
    assert Fixed(Dec(negative, 1995, -2)) == Sign(negative) + ("19" + "." + "95");
  }

  lemma TwoBytes(x: Byte, y: Byte)
    ensures SignedValue([x, y]) == if x >= 128 then 256 * x + y - 65536 else 256 * x + y
  {
    assert [x, y][..1] == [x] && [x][..0] == [];
    assert Unsigned([x]) == x && Unsigned([x, y]) == 256 * x + y && Pow256(1) == 256 && Pow256(2) == 65536;
  }

  lemma FourDigits()
    ensures NatText(1995) == "1995" && Digits(1995) == 4
  {
    assert NatText(1) == "1" && NatText(19) == "1" + "9" && NatText(199) == "19" + "9";
    assert NatText(1995) == "199" + "5";
  }

  lemma FewDigitsStay(d: Dec)
    requires Digits(d.coef) <= PRECISION
    ensures Round(d) == d
  {
  }

  lemma SignBytesDoNotMatter(b: seq<Byte>, scale: nat)
    requires b != []
    ensures DecodeDecimal(Some([if b[0] >= 128 then 255 else 0] + b), scale) == DecodeDecimal(Some(b), scale)
  {
    SignExtension(b);
  }

  lemma FewSignificant(d: Dec)
    requires Digits(d.coef) <= PRECISION
    ensures Significant(d) <= PRECISION
  {
    if d.coef != 0 { FewDigits(d); }
  }

  lemma ExactScaled(n: int, s: nat, t: nat, e: int)
    requires e == 0 - s - t
    ensures Scaled(Exact(n, s), e) == n * Pow10(t)
  {
  }

  lemma ExactEq(n: int, s: nat, m: int, t: nat)
    ensures NumEq(Exact(n, s), Exact(m, t)) <==> n * Pow10(t) == m * Pow10(s)
  {
    var x, y, e := n * Pow10(t), m * Pow10(s), 0 - s - t;
    ExactScaled(n, s, t, e);
    ExactScaled(m, t, s, e);
    EqualWhenScaled(Exact(n, s), Exact(m, t), e, x, y);
  }

  lemma EqualWhenScaled(a: Dec, b: Dec, e: int, x: int, y: int)
    requires e <= a.exp && e <= b.exp && Scaled(a, e) == x && Scaled(b, e) == y
    ensures NumEq(a, b) <==> x == y
  {
    NumEqAt(a, b, e);
  }

  /** Whatever the bytes and scales, two decoded columns have one canonical text exactly
      when unscaled * 10^-scale is the same number. */
  lemma DecodedValuesCanonicaliseAlike(a: seq<Byte>, s: nat, b: seq<Byte>, t: nat)
    requires 1 <= |a| <= 11 && 1 <= |b| <= 11
    ensures var x, y := ReadFixed(DecodeDecimal(Some(a), s).value), ReadFixed(DecodeDecimal(Some(b), t).value);
            && x.Some? && y.Some?
            && (CanonicalText(x.value) == CanonicalText(y.value)
                <==> SignedValue(a) * Pow10(t) == SignedValue(b) * Pow10(s))
  {
    DecodingIsExact(a, s);
    DecodingIsExact(b, t);
    ElevenBytes(a);
    ElevenBytes(b);
    var x, y := Exact(SignedValue(a), s), Exact(SignedValue(b), t);
    FewSignificant(x);
    FewSignificant(y);
    CanonicalTextIsFaithful(x, y);
    ExactEq(SignedValue(a), s, SignedValue(b), t);
  }

  // 2^95 - 1
  const LARGE := 39614081257132168796771975167

  function TwelveBytes(): seq<Byte> { [127] + seq(11, i => 255) }

  lemma TwelveBytesValue()
    ensures SignedValue(TwelveBytes()) == LARGE
  {
    AllOnes(11);
    UnsignedPrepend(127, seq(11, i => 255));
    assert Pow256(11) == 0x1_0000_0000_0000_0000_0000_00;
  }

  lemma LargeIsLong()
    ensures Digits(LARGE) > PRECISION
  {
    DigitsBound(LARGE, PRECISION);
    TwentyEight();
  }

  lemma NotRound(d: Dec)
    requires d.coef % 10 != 0
    ensures Significant(d) == Digits(d.coef)
  {
  }

  /** Twelve bytes can be too many: at every scale the text decoded from 2^95 - 1, which has
      29 digits, denotes another number. */
  lemma TwelveBytesLoseDigits(scale: nat)
    ensures DecodeDecimal(Some(TwelveBytes()), scale).Some?
    ensures var read := ReadFixed(DecodeDecimal(Some(TwelveBytes()), scale).value);
            SignedValue(TwelveBytes()) == LARGE && read.Some? && !NumEq(read.value, Exact(LARGE, scale))
  {
    TwelveBytesValue();
    LargeIsLong();
    NotRound(Exact(LARGE, scale));
    DecodingIsExactExactlyWhen(TwelveBytes(), scale);
  }

  lemma {:induction false} AllOnes(n: nat)
    ensures Unsigned(seq(n, i => 255)) == Pow256(n) - 1
  {
    if n > 0 {
      var s: seq<Byte> := seq(n, i => 255);
      assert s[..n - 1] == seq(n - 1, i => 255);
      AllOnes(n - 1);
    }
  }
}
