/**
Triple DES as documented, one CBC over the encrypt-decrypt-encrypt composite of
FIPS 46-3, against the three chained passes of the source.
*/
module TripleDes {
  import opened Bits
  import opened Bytes
  import opened BlockModes
  import DesBlock
  import Rc2Block

  // ----- The documented mode -----

  function First(key: seq<byte>): Cipher
    requires TripleKeyed(key)
  {
    Des(key[..8])
  }

  function Second(key: seq<byte>): Cipher
    requires TripleKeyed(key)
  {
    Des(key[8..16])
  }

  function Third(key: seq<byte>): Cipher
    requires TripleKeyed(key)
  {
    if |key| >= 24 then Des(key[16..24]) else First(key)
  }

  /** Encrypt under the first part, decrypt under the second, encrypt under the third. */
  function Ede(p: Primitives, key: seq<byte>, block: seq<byte>): (r: seq<byte>)
    requires TripleKeyed(key) && |block| == 8
    ensures |r| == 8
  {
    Through(p, Third(key), true, Through(p, Second(key), false, Through(p, First(key), true, block)))
  }

  function EdeCbc(p: Primitives, key: seq<byte>, iv: seq<byte>, data: seq<byte>): seq<byte>
    requires TripleKeyed(key) && |iv| == 8
    decreases |data|
  {
    if |data| < 8 then []
    else
      var x := Ede(p, key, Xor(data[..8], iv));
      x + EdeCbc(p, key, x, data[8..])
  }

  lemma TripleInParts(p: Primitives, key: seq<byte>, iv: seq<byte>, data: seq<byte>)
    requires TripleKeyed(key) && |iv| == 8
    ensures Triple(p, key, true, iv, data) ==
            Cbc(p, Third(key), true, iv, Cbc(p, Second(key), false, iv, Cbc(p, First(key), true, iv, data)))
  {
    hide Cbc;
  }

  // ----- One block -----

  lemma OneBlock(p: Primitives, c: Cipher, encrypt: bool, iv: seq<byte>, data: seq<byte>)
    requires c.Des? && |iv| == 8 && 8 <= |data| < 16
    ensures Cbc(p, c, encrypt, iv, data) == Chained(p, c, encrypt, iv, data[..8]).0
  {
    hide Chained;
    FirstBlock(p, c, encrypt, iv, data);
    NoBlock(p, c, encrypt, Chained(p, c, encrypt, iv, data[..8]).1, data[8..]);
  }

  /** The vector that the middle pass adds is taken off again by the last one. */
  lemma FirstChain(p: Primitives, key: seq<byte>, iv: seq<byte>, block: seq<byte>)
    requires TripleKeyed(key) && |iv| == |block| == 8
    ensures var one := Chained(p, First(key), true, iv, block).0;
            var two := Chained(p, Second(key), false, iv, one).0;
            Chained(p, Third(key), true, iv, two).0 == Ede(p, key, Xor(block, iv))
  {
    hide Through, Xor;
    XorTwice(Through(p, Second(key), false, Through(p, First(key), true, Xor(block, iv))), iv);
  }

  /** Below two blocks the three passes are the documented mode, whatever the primitives. */
  lemma ShortDataAgrees(p: Primitives, key: seq<byte>, iv: seq<byte>, data: seq<byte>)
    requires TripleKeyed(key) && |iv| == 8 && |data| < 16
    ensures Triple(p, key, true, iv, data) == EdeCbc(p, key, iv, data)
  {
    hide Cbc, Chained, Ede, Triple, Xor;
    TripleInParts(p, key, iv, data);
    if |data| < 8 {
      NoBlock(p, First(key), true, iv, data);
      NoBlock(p, Second(key), false, iv, []);
      NoBlock(p, Third(key), true, iv, []);
    } else {
      SingleBlockAgrees(p, key, iv, data);
    }
  }

  lemma SingleBlockAgrees(p: Primitives, key: seq<byte>, iv: seq<byte>, data: seq<byte>)
    requires TripleKeyed(key) && |iv| == 8 && 8 <= |data| < 16
    ensures Triple(p, key, true, iv, data) == EdeCbc(p, key, iv, data)
  {
    hide Cbc, Chained, Ede, Triple, Xor;
    TripleInParts(p, key, iv, data);
    var one := Chained(p, First(key), true, iv, data[..8]).0;
    var two := Chained(p, Second(key), false, iv, one).0;
    OneBlock(p, First(key), true, iv, data);
    OneBlock(p, Second(key), false, iv, one);
    OneBlock(p, Third(key), true, iv, two);
    assert one[..8] == one && two[..8] == two;
    FirstChain(p, key, iv, data[..8]);
    assert EdeCbc(p, key, Ede(p, key, Xor(data[..8], iv)), data[8..]) == [];
  }

  // ----- Equal key parts -----

  /** The whole blocks. */
  function Kept(data: seq<byte>): (r: seq<byte>)
    ensures Whole(8, r)
    decreases |data|
  {
    if |data| < 8 then []
    else
      var rest := Kept(data[8..]);
      assert (data[..8] + rest)[8..] == rest;
      data[..8] + rest
  }

  lemma {:induction false} CbcOfKept(p: Primitives, c: Cipher, encrypt: bool, iv: seq<byte>, data: seq<byte>)
    requires c.Des? && |iv| == 8
    ensures Cbc(p, c, encrypt, iv, Kept(data)) == Cbc(p, c, encrypt, iv, data)
    decreases |data|
  {
    hide Chained, Cbc;
    if |data| < 8 {
      NoBlock(p, c, encrypt, iv, data);
      NoBlock(p, c, encrypt, iv, []);
    } else {
      var all := Kept(data);
      assert all[..8] == data[..8] && all[8..] == Kept(data[8..]);
      FirstBlock(p, c, encrypt, iv, data);
      FirstBlock(p, c, encrypt, iv, all);
      CbcOfKept(p, c, encrypt, Chained(p, c, encrypt, iv, data[..8]).1, data[8..]);
    }
  }

  /** When the composite is a single cipher, the documented mode is that cipher's chaining. */
  lemma {:induction false} EdeCbcCollapses(p: Primitives, key: seq<byte>, c: Cipher, iv: seq<byte>, data: seq<byte>)
    requires TripleKeyed(key) && c.Des? && |iv| == 8
    requires (First(key) == Second(key) && c == Third(key)) || (Second(key) == Third(key) && c == First(key))
    ensures EdeCbc(p, key, iv, data) == Cbc(p, c, true, iv, data)
    decreases |data|
  {
    hide Through, Xor, First, Second, Third, Cbc;
    if |data| < 8 {
      NoBlock(p, c, true, iv, data);
    } else {
      var x := Xor(data[..8], iv);
      EdeCollapses(p, key, c, x);
      FirstBlock(p, c, true, iv, data);
      EdeCbcCollapses(p, key, c, Through(p, c, true, x), data[8..]);
    }
  }

  lemma EdeCollapses(p: Primitives, key: seq<byte>, c: Cipher, x: seq<byte>)
    requires TripleKeyed(key) && c.Des? && |x| == 8
    requires (First(key) == Second(key) && c == Third(key)) || (Second(key) == Third(key) && c == First(key))
    ensures Ede(p, key, x) == Through(p, c, true, x)
  {
    hide Through;
    ThroughUndone(p, First(key), true, x);
    ThroughUndone(p, Second(key), false, Through(p, First(key), true, x));
  }

  predicate PartsMeet(key: seq<byte>)
    requires TripleKeyed(key)
  {
    First(key) == Second(key) || Second(key) == Third(key)
  }

  /** When the middle key part equals a neighbour, both modes are single DES, whatever the data. */
  lemma EqualPartsAgree(p: Primitives, key: seq<byte>, iv: seq<byte>, data: seq<byte>)
    requires TripleKeyed(key) && |iv| == 8 && PartsMeet(key)
    ensures Triple(p, key, true, iv, data) == EdeCbc(p, key, iv, data)
  {
    hide Cbc, EdeCbc, Triple, Whole;
    TripleInParts(p, key, iv, data);
    var k1, k2, k3, whole := First(key), Second(key), Third(key), Kept(data);
    CbcOfKept(p, k1, true, iv, data);
    CbcOfKept(p, k3, true, iv, data);
    if k1 == k2 {
      CbcUndone(p, k1, true, iv, whole);
      EdeCbcCollapses(p, key, k3, iv, data);
    } else {
      CbcLength(p, k1, true, iv, whole);
      CbcUndone(p, k2, false, iv, Cbc(p, k1, true, iv, whole));
      EdeCbcCollapses(p, key, k1, iv, data);
    }
  }

  // ----- Two blocks -----

  /** The first and the second block of a chain. */
  function Leading(p: Primitives, c: Cipher, encrypt: bool, iv: seq<byte>, data: seq<byte>): seq<byte>
    requires c.Des? && |iv| == 8 && |data| >= 16
  {
    Chained(p, c, encrypt, iv, data[..8]).0
  }

  function Following(p: Primitives, c: Cipher, encrypt: bool, iv: seq<byte>, data: seq<byte>): seq<byte>
    requires c.Des? && |iv| == 8 && |data| >= 16
  {
    Chained(p, c, encrypt, Chained(p, c, encrypt, iv, data[..8]).1, data[8..16]).0
  }

  predicate Begins(out: seq<byte>, first: seq<byte>, second: seq<byte>) {
    |out| >= 16 && out[..8] == first && out[8..16] == second
  }

  lemma TwoBlocks(p: Primitives, c: Cipher, encrypt: bool, iv: seq<byte>, data: seq<byte>)
    requires c.Des? && |iv| == 8 && |data| >= 16
    ensures Begins(Cbc(p, c, encrypt, iv, data), Leading(p, c, encrypt, iv, data), Following(p, c, encrypt, iv, data))
  {
    hide Chained, Cbc;
    var (x, next) := Chained(p, c, encrypt, iv, data[..8]);
    FirstBlock(p, c, encrypt, iv, data);
    FirstBlock(p, c, encrypt, next, data[8..]);
    assert data[8..][..8] == data[8..16];
  }

  /** What the three passes feed to the last cipher for the second block. */
  function TripleSecond(p: Primitives, key: seq<byte>, iv: seq<byte>, a: seq<byte>, b: seq<byte>): (r: seq<byte>)
    requires TripleKeyed(key) && |iv| == |a| == |b| == 8
    ensures |r| == 8
  {
    var f := Through(p, First(key), true, Xor(a, iv));
    Xor(Xor(Through(p, Second(key), false, Through(p, First(key), true, Xor(b, f))), f), Ede(p, key, Xor(a, iv)))
  }

  /** And what the documented mode feeds to it. */
  function EdeSecond(p: Primitives, key: seq<byte>, iv: seq<byte>, a: seq<byte>, b: seq<byte>): (r: seq<byte>)
    requires TripleKeyed(key) && |iv| == |a| == |b| == 8
    ensures |r| == 8
  {
    Through(p, Second(key), false, Through(p, First(key), true, Xor(b, Ede(p, key, Xor(a, iv)))))
  }

  lemma TripleSecondBlock(p: Primitives, key: seq<byte>, iv: seq<byte>, data: seq<byte>)
    requires TripleKeyed(key) && |iv| == 8 && |data| >= 16
    ensures var out := Triple(p, key, true, iv, data);
            |out| >= 16 && out[8..16] == Through(p, Third(key), true, TripleSecond(p, key, iv, data[..8], data[8..16]))
  {
    hide Cbc, Through, Xor, Triple;
    TripleInParts(p, key, iv, data);
    var one := Cbc(p, First(key), true, iv, data);
    TwoBlocks(p, First(key), true, iv, data);
    var two := Cbc(p, Second(key), false, iv, one);
    TwoBlocks(p, Second(key), false, iv, one);
    TwoBlocks(p, Third(key), true, iv, two);
    FirstChain(p, key, iv, data[..8]);
  }

  lemma EdeSecondBlock(p: Primitives, key: seq<byte>, iv: seq<byte>, data: seq<byte>)
    requires TripleKeyed(key) && |iv| == 8 && |data| >= 16
    ensures var out := EdeCbc(p, key, iv, data);
            |out| >= 16 && out[8..16] == Through(p, Third(key), true, EdeSecond(p, key, iv, data[..8], data[8..16]))
  {
    hide Through, Xor;
    var x := Ede(p, key, Xor(data[..8], iv));
    assert data[8..][..8] == data[8..16];
    var y := Ede(p, key, Xor(data[8..16], x));
    assert EdeCbc(p, key, x, data[8..]) == y + EdeCbc(p, key, y, data[8..][8..]);
  }

  // ----- Primitives under which they differ -----

  function NoBits(): DesBlock.Half {
    seq(32, i => false)
  }

  function RoundKey(busy: bool): (k: DesBlock.RoundKey)
    ensures k[0] == busy
  {
    seq(48, i => busy)
  }

  /** A round that adds its right half, or nothing, by the key. */
  function Round(r: DesBlock.Half, k: DesBlock.RoundKey): DesBlock.Half {
    if k[0] then r else NoBits()
  }

  function IdleKeys(count: nat): (r: seq<DesBlock.RoundKey>)
    ensures |r| == count && forall i | 0 <= i < count :: r[i] == RoundKey(false)
  {
    seq(count, i => RoundKey(false))
  }

  /** Every key but one is busy in the last round. */
  function Schedule(idle: seq<byte>, key: seq<byte>): DesBlock.RoundKeys {
    if key == idle then IdleKeys(16) else IdleKeys(15) + [RoundKey(true)]
  }

  function Expansion(key: seq<byte>): Rc2Block.Table {
    seq(64, i => 0)
  }

  function Aes(key: seq<byte>, encrypt: bool, block: AesBlock): AesBlock {
    block
  }

  /** Primitives for which the middle part of a key is idle. */
  function Example(key: seq<byte>): Primitives
    requires TripleKeyed(key)
  {
    Primitives(Round, k => Schedule(key[8..16], k), Expansion, Aes)
  }

  // Two bits of a block, one of each half as the rounds see it, are enough to tell them apart.

  function View(b: DesBlock.Block): DesBlock.BlockBits {
    DesBlock.Permute(DesBlock.Unpacked(b), DesBlock.Initial)
  }

  function L(b: seq<byte>): bool
    requires |b| == 8
  {
    View(b)[0]
  }

  function R(b: seq<byte>): bool
    requires |b| == 8
  {
    View(b)[32]
  }

  lemma {:induction false} UnpackedXor(a: seq<byte>, b: seq<byte>)
    requires |a| == |b|
    ensures DesBlock.Unpacked(Xor(a, b)) == Differ(DesBlock.Unpacked(a), DesBlock.Unpacked(b))
    decreases |a|
  {
    hide ByteBits, BitsByte;
    if a != [] {
      UnpackedXor(a[1..], b[1..]);
      assert Xor(a, b)[1..] == Xor(a[1..], b[1..]);
      BitsReadBack(Differ(ByteBits(a[0]), ByteBits(b[0])));
    }
  }

  lemma XorBits(a: seq<byte>, b: seq<byte>)
    requires |a| == |b| == 8
    ensures L(Xor(a, b)) == (L(a) != L(b)) && R(Xor(a, b)) == (R(a) != R(b))
  {
    hide Xor, DesBlock.Unpacked;
    UnpackedXor(a, b);
    ViewAt(a, 0);
    ViewAt(b, 0);
    ViewAt(Xor(a, b), 0);
    ViewAt(a, 32);
    ViewAt(b, 32);
    ViewAt(Xor(a, b), 32);
  }

  lemma ViewAt(b: DesBlock.Block, i: DesBlock.Place)
    ensures View(b)[i] == DesBlock.Unpacked(b)[DesBlock.Initial(i)]
  {
  }

  /** The halves a block cipher leaves, as the rounds of the next one would see them. */
  lemma CipherView(keys: DesBlock.RoundKeys, encrypt: bool, b: DesBlock.Block)
    ensures var order := if encrypt then keys else DesBlock.Reversed(keys);
            var (l, r) := DesBlock.Rounds(Round, order, View(b)[..32], View(b)[32..]);
            View(DesBlock.Cipher(Round, keys, encrypt, b)) == r + l
  {
    hide DesBlock.Permute, DesBlock.Rounds, DesBlock.Packed, DesBlock.Unpacked, DesBlock.Reversed;
    var order := if encrypt then keys else DesBlock.Reversed(keys);
    var (l, r) := DesBlock.Rounds(Round, order, View(b)[..32], View(b)[32..]);
    DesBlock.PackedReadBack(DesBlock.Permute(r + l, DesBlock.Final), 8);
    DesBlock.PermutationsInverse(r + l);
  }

  lemma {:induction false} IdleRounds(count: nat, l: DesBlock.Half, r: DesBlock.Half)
    ensures DesBlock.Rounds(Round, IdleKeys(count), l, r) == if count % 2 == 0 then (l, r) else (r, l)
    decreases count
  {
    if count > 0 {
      assert IdleKeys(count)[1..] == IdleKeys(count - 1);
      assert DesBlock.XorHalf(l, NoBits()) == l;
      IdleRounds(count - 1, r, l);
    }
  }

  lemma IdleCipher(b: DesBlock.Block, encrypt: bool)
    ensures var out := DesBlock.Cipher(Round, IdleKeys(16), encrypt, b); L(out) == R(b) && R(out) == L(b)
  {
    hide View, DesBlock.Cipher, DesBlock.Rounds;
    assert DesBlock.Reversed(IdleKeys(16)) == IdleKeys(16);
    CipherView(IdleKeys(16), encrypt, b);
    IdleRounds(16, View(b)[..32], View(b)[32..]);
  }

  lemma BusyCipher(b: DesBlock.Block)
    ensures var out := DesBlock.Cipher(Round, IdleKeys(15) + [RoundKey(true)], true, b);
            L(out) == (R(b) != L(b)) && R(out) == L(b)
  {
    hide View, DesBlock.Cipher, DesBlock.Rounds;
    var l, r := View(b)[..32], View(b)[32..];
    CipherView(IdleKeys(15) + [RoundKey(true)], true, b);
    IdleRounds(15, l, r);
    DesBlock.RoundsThen(Round, IdleKeys(15), RoundKey(true), l, r);
    assert RoundKey(true)[0];
  }

  /** Encryption under the first and third part, and decryption under the second, on the two bits. */
  lemma ExampleThrough(key: seq<byte>, b: seq<byte>)
    requires TripleKeyed(key) && !PartsMeet(key) && |b| == 8
    ensures var p := Example(key);
            var first, third := Through(p, First(key), true, b), Through(p, Third(key), true, b);
            var idle := Through(p, Second(key), false, b);
            && L(first) == L(third) == (R(b) != L(b)) && R(first) == R(third) == L(b)
            && L(idle) == R(b) && R(idle) == L(b)
  {
    hide DesBlock.Cipher, L, R;
    BusyCipher(b);
    IdleCipher(b, false);
  }

  /** A block whose two bits are both set. */
  function FullBlock(): (b: seq<byte>)
    ensures |b| == 8
  {
    DesBlock.Packed(seq(64, i => true))
  }

  lemma FullBits()
    ensures L(FullBlock()) && R(FullBlock())
  {
    hide DesBlock.Packed, DesBlock.Unpacked;
    DesBlock.PackedReadBack(seq(64, i => true), 8);
    ViewAt(FullBlock(), 0);
    ViewAt(FullBlock(), 32);
  }

  /** A vector that sets both bits of what the first cipher sees. */
  function Vector(data: seq<byte>): (iv: seq<byte>)
    requires |data| >= 8
    ensures |iv| == 8
  {
    Xor(FullBlock(), data[..8])
  }

  lemma VectorBits(data: seq<byte>)
    requires |data| >= 8
    ensures L(Xor(data[..8], Vector(data))) && R(Xor(data[..8], Vector(data)))
  {
    hide L, R, Xor, FullBlock;
    FullBits();
    XorBits(FullBlock(), data[..8]);
    XorBits(data[..8], Vector(data));
  }

  /** What both modes answer for the first block, on the two bits. */
  lemma FirstAnswer(key: seq<byte>, x: seq<byte>)
    requires TripleKeyed(key) && !PartsMeet(key) && |x| == 8 && L(x) && R(x)
    ensures var f, c := Through(Example(key), First(key), true, x), Ede(Example(key), key, x);
            !L(f) && R(f) && L(c) && R(c)
  {
    hide L, R, Through, Example, PartsMeet;
    var f := Through(Example(key), First(key), true, x);
    ExampleThrough(key, x);
    ExampleThrough(key, f);
    ExampleThrough(key, Through(Example(key), Second(key), false, f));
  }

  /** The two modes feed different blocks to the last cipher. */
  lemma SecondsDiffer(key: seq<byte>, data: seq<byte>)
    requires TripleKeyed(key) && !PartsMeet(key) && |data| >= 16
    ensures var p, iv := Example(key), Vector(data);
            R(TripleSecond(p, key, iv, data[..8], data[8..16])) != R(EdeSecond(p, key, iv, data[..8], data[8..16]))
  {
    hide L, R, Through, Xor, Ede, Vector, Example, PartsMeet;
    var p, x, b := Example(key), Xor(data[..8], Vector(data)), data[8..16];
    VectorBits(data);
    FirstAnswer(key, x);
    var f, c := Through(p, First(key), true, x), Ede(p, key, x);
    XorBits(b, f);
    XorBits(b, c);
    ExampleThrough(key, Xor(b, f));
    ExampleThrough(key, Xor(b, c));
    var g, h := Through(p, First(key), true, Xor(b, f)), Through(p, First(key), true, Xor(b, c));
    ExampleThrough(key, g);
    ExampleThrough(key, h);
    var d := Through(p, Second(key), false, g);
    XorBits(d, f);
    XorBits(Xor(d, f), c);
  }

  /** At any key whose middle part differs from its neighbours, any two blocks tell the modes apart. */
  lemma LongDataDiffers(key: seq<byte>, data: seq<byte>)
    requires TripleKeyed(key) && !PartsMeet(key) && |data| >= 16
    ensures Triple(Example(key), key, true, Vector(data), data) != EdeCbc(Example(key), key, Vector(data), data)
  {
    hide Triple, EdeCbc, Through, R, TripleSecond, EdeSecond, Vector, Example, PartsMeet;
    var p, iv := Example(key), Vector(data);
    var u, v := TripleSecond(p, key, iv, data[..8], data[8..16]), EdeSecond(p, key, iv, data[..8], data[8..16]);
    SecondsDiffer(key, data);
    TripleSecondBlock(p, key, iv, data);
    EdeSecondBlock(p, key, iv, data);
    ThroughUndone(p, Third(key), true, u);
    ThroughUndone(p, Third(key), true, v);
  }

  /**
  At a given key the source's triple DES encrypts given data as documented, under
  every primitive and vector, if and only if the data is shorter than two blocks
  or the middle part of the key equals the first or the third.
  */
  lemma DocumentedModeExactly(key: seq<byte>, data: seq<byte>)
    requires TripleKeyed(key)
    ensures (forall p, iv | |iv| == 8 :: Triple(p, key, true, iv, data) == EdeCbc(p, key, iv, data)) <==>
            |data| < 16 || PartsMeet(key)
  {
    hide Triple, EdeCbc, Vector, PartsMeet, Example;
    if |data| < 16 {
      forall p, iv | |iv| == 8
        ensures Triple(p, key, true, iv, data) == EdeCbc(p, key, iv, data)
      {
        ShortDataAgrees(p, key, iv, data);
      }
    } else if PartsMeet(key) {
      forall p, iv | |iv| == 8
        ensures Triple(p, key, true, iv, data) == EdeCbc(p, key, iv, data)
      {
        EqualPartsAgree(p, key, iv, data);
      }
    } else {
      LongDataDiffers(key, data);
    }
  }
}
