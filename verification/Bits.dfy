/** Numbers as bits, the most significant first, and exclusive or. */
module Bits {
  import opened Bytes

  function Power(width: nat): (r: nat)
    ensures r > 0
  {
    if width == 0 then 1 else 2 * Power(width - 1)
  }

  function BitsOf(n: nat, width: nat): (r: seq<bool>)
    ensures |r| == width
    decreases width
  {
    if width == 0 then [] else BitsOf(n / 2, width - 1) + [n % 2 == 1]
  }

  function ValueOf(s: seq<bool>): (r: nat)
    ensures r < Power(|s|)
  {
    if s == [] then 0 else 2 * ValueOf(s[..|s| - 1]) + if s[|s| - 1] then 1 else 0
  }

  lemma {:induction false} ValueOfBits(n: nat, width: nat)
    requires n < Power(width)
    ensures ValueOf(BitsOf(n, width)) == n
    decreases width
  {
    if width > 0 {
      ValueOfBits(n / 2, width - 1);
      assert BitsOf(n, width)[..width - 1] == BitsOf(n / 2, width - 1);
    }
  }

  lemma {:induction false} BitsOfValue(s: seq<bool>)
    ensures BitsOf(ValueOf(s), |s|) == s
  {
    if s != [] {
      BitsOfValue(s[..|s| - 1]);
    }
  }

  // ----- Bytes -----

  lemma EightBits()
    ensures Power(8) == 256
  {
    assert Power(4) == 16;
  }

  lemma SixteenBits()
    ensures Power(16) == 0x1_0000
  {
    EightBits();
    assert Power(12) == 16 * Power(8);
    assert Power(16) == 16 * Power(12);
  }

  function ByteBits(b: byte): (r: seq<bool>)
    ensures |r| == 8
  {
    BitsOf(b, 8)
  }

  function BitsByte(s: seq<bool>): byte
    requires |s| == 8
  {
    EightBits();
    ValueOf(s)
  }

  lemma ByteReadBack(b: byte)
    ensures BitsByte(ByteBits(b)) == b
  {
    hide BitsOf, ValueOf, Power;
    EightBits();
    ValueOfBits(b, 8);
  }

  lemma BitsReadBack(s: seq<bool>)
    requires |s| == 8
    ensures ByteBits(BitsByte(s)) == s
  {
    hide BitsOf, ValueOf, Power;
    BitsOfValue(s);
  }

  // ----- Exclusive or -----

  function Differ(a: seq<bool>, b: seq<bool>): (r: seq<bool>)
    requires |a| == |b|
    ensures |r| == |a|
  {
    seq(|a|, i requires 0 <= i < |a| => a[i] != b[i])
  }

  function Masked(b: byte, k: byte): byte {
    BitsByte(Differ(ByteBits(b), ByteBits(k)))
  }

  lemma MaskedTwice(b: byte, k: byte)
    ensures Masked(Masked(b, k), k) == b
  {
    hide BitsByte, ByteBits;
    BitsReadBack(Differ(ByteBits(b), ByteBits(k)));
    assert Differ(Differ(ByteBits(b), ByteBits(k)), ByteBits(k)) == ByteBits(b);
    ByteReadBack(b);
  }

  function Xor(a: seq<byte>, b: seq<byte>): (r: seq<byte>)
    requires |a| == |b|
    ensures |r| == |a|
  {
    seq(|a|, i requires 0 <= i < |a| => Masked(a[i], b[i]))
  }

  lemma XorTwice(a: seq<byte>, b: seq<byte>)
    requires |a| == |b|
    ensures Xor(Xor(a, b), b) == a
  {
    hide Masked;
    forall i | 0 <= i < |a|
      ensures Xor(Xor(a, b), b)[i] == a[i]
    {
      MaskedTwice(a[i], b[i]);
    }
  }

  lemma XorThen(a: seq<byte>, b: seq<byte>, x: byte, y: byte)
    requires |a| == |b|
    ensures Xor(a + [x], b + [y]) == Xor(a, b) + [Masked(x, y)]
  {
    hide Masked;
  }
}
