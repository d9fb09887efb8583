/** Big-endian integers: `int.to_bytes`, `int.from_bytes`, signed and unsigned. */
module Bytes {
  type Byte = b: int | 0 <= b < 256

  function Pow256(n: nat): (p: nat)
    ensures p >= 1
  {
    if n == 0 then 1 else 256 * Pow256(n - 1)
  }

  // int.from_bytes(b, "big")
  function Unsigned(b: seq<Byte>): (n: nat)
    ensures n < Pow256(|b|)
  {
    if b == [] then 0 else 256 * Unsigned(b[..|b| - 1]) + b[|b| - 1]
  }

  // n.to_bytes(width, "big")
  function ToBytes(n: nat, width: nat): (b: seq<Byte>)
    requires n < Pow256(width)
    ensures |b| == width
  {
    if width == 0 then [] else ToBytes(n / 256, width - 1) + [n % 256]
  }

  lemma {:induction false} BytesRoundTrip(n: nat, width: nat)
    requires n < Pow256(width)
    ensures Unsigned(ToBytes(n, width)) == n
  {
    if width > 0 {
      assert ToBytes(n, width)[..width - 1] == ToBytes(n / 256, width - 1);
      BytesRoundTrip(n / 256, width - 1);
    }
  }

  lemma {:induction false} UnsignedPrepend(x: Byte, b: seq<Byte>)
    ensures Unsigned([x] + b) == x * Pow256(|b|) + Unsigned(b)
  {
    if b == [] {
      assert [x] + b == [x] && [x][..0] == [];
    } else {
      var front := b[..|b| - 1];
      assert ([x] + b)[..|b|] == [x] + front;
      UnsignedPrepend(x, front);
      assert x * Pow256(|b|) == 256 * (x * Pow256(|front|));
    }
  }

  // int.from_bytes(b, "big", signed=True)
  function SignedValue(b: seq<Byte>): int {
    if b != [] && b[0] >= 128 then Unsigned(b) - Pow256(|b|) else Unsigned(b)
  }

  // The top bit says which half of the range the number is in.
  lemma TopBit(b: seq<Byte>)
    requires b != []
    ensures b[0] >= 128 <==> 2 * Unsigned(b) >= Pow256(|b|)
  {
    var p := Pow256(|b| - 1);
    assert [b[0]] + b[1..] == b;
    UnsignedPrepend(b[0], b[1..]);
    if b[0] >= 128 { Times(128, b[0], p); } else { Times(b[0], 127, p); }
  }

  lemma Times(x: nat, y: nat, p: nat)
    requires x <= y
    ensures x * p <= y * p
  {
  }

  // n in `width` bytes of two's complement
  function Encode(n: int, width: nat): (b: seq<Byte>)
    requires 2 * n < Pow256(width) && -2 * n <= Pow256(width)
    ensures |b| == width
  {
    ToBytes(if n >= 0 then n else n + Pow256(width), width)
  }

  /** Two's complement decodes what it encodes, in any sufficient width. */
  lemma SignedRoundTrip(n: int, width: nat)
    requires width >= 1 && 2 * n < Pow256(width) && -2 * n <= Pow256(width)
    ensures SignedValue(Encode(n, width)) == n
  {
    BytesRoundTrip(if n >= 0 then n else n + Pow256(width), width);
    TopBit(Encode(n, width));
  }

  /** Repeating the sign in front does not change the number. */
  lemma SignExtension(b: seq<Byte>)
    requires b != []
    ensures SignedValue([if b[0] >= 128 then 255 else 0] + b) == SignedValue(b)
  {
    var x: Byte := if b[0] >= 128 then 255 else 0;
    UnsignedPrepend(x, b);
    assert Pow256(|[x] + b|) == 256 * Pow256(|b|);
    assert 0 * Pow256(|b|) == 0;
  }
}
