/**
Cipher block chaining (section 6.2 of NIST SP 800-38A) over the three block
ciphers of the key objects, and the three chained passes of triple DES.
*/
module BlockModes {
  import opened Bits
  import opened Bytes
  import DesBlock
  import Rc2Block
  import opened Division

  type AesBlock = s: seq<byte> | |s| == 16 witness seq(16, i => 0)

  /** What the model takes from outside: DES rounds and key schedule, RC2 key expansion, the AES block cipher. */
  datatype Primitives = Primitives(
    desRound: DesBlock.RoundFunction,
    desKeys: seq<byte> -> DesBlock.RoundKeys,
    rc2Keys: seq<byte> -> Rc2Block.Table,
    aes: (seq<byte>, bool, AesBlock) -> AesBlock)

  /** AES is a permutation of blocks for each key of a supported length. */
  ghost predicate AesInverts(p: Primitives) {
    forall key, encrypt, b :: |key| == 16 || |key| == 32 ==> p.aes(key, !encrypt, p.aes(key, encrypt, b)) == b
  }

  /** Nothing is assumed of the ciphers that are modelled. */
  ghost predicate Inverts(p: Primitives, c: Cipher) {
    c.Aes? ==> AesInverts(p)
  }

  // ----- One block -----

  datatype Cipher = Des(key: seq<byte>) | Rc2(key: seq<byte>) | Aes(key: seq<byte>)

  function Size(c: Cipher): nat {
    if c.Aes? then 16 else 8
  }

  function Through(p: Primitives, c: Cipher, encrypt: bool, block: seq<byte>): (r: seq<byte>)
    requires |block| == Size(c)
    ensures |r| == Size(c)
  {
    match c
    case Des(key) => DesBlock.Cipher(p.desRound, p.desKeys(key), encrypt, block)
    case Rc2(key) => Rc2Block.Cipher(p.rc2Keys(key), encrypt, block)
    case Aes(key) => p.aes(key, encrypt, block)
  }

  predicate Keyed(c: Cipher) {
    c.Aes? ==> |c.key| == 16 || |c.key| == 32
  }

  lemma ThroughUndone(p: Primitives, c: Cipher, encrypt: bool, block: seq<byte>)
    requires Inverts(p, c) && Keyed(c) && |block| == Size(c)
    ensures Through(p, c, !encrypt, Through(p, c, encrypt, block)) == block
  {
    hide DesBlock.Cipher, Rc2Block.Cipher;
    match c {
      case Des(key) => DesBlock.CipherUndone(p.desRound, p.desKeys(key), encrypt, block);
      case Rc2(key) => Rc2Block.CipherUndone(p.rc2Keys(key), encrypt, block);
      case Aes(key) =>
    }
  }

  // ----- Chaining -----

  /** One block in either direction, and the block that chains into the next. */
  function Chained(p: Primitives, c: Cipher, encrypt: bool, chain: seq<byte>, block: seq<byte>)
    : (r: (seq<byte>, seq<byte>))
    requires |chain| == |block| == Size(c)
    ensures |r.0| == |r.1| == Size(c)
  {
    if encrypt then
      var x := Through(p, c, true, Xor(block, chain));
      (x, x)
    else
      (Xor(Through(p, c, false, block), chain), block)
  }

  /** The whole blocks of `data` chained from an initialization vector; a partial last block is dropped. */
  function Cbc(p: Primitives, c: Cipher, encrypt: bool, iv: seq<byte>, data: seq<byte>): (r: seq<byte>)
    requires |iv| == Size(c)
    decreases |data|
  {
    var n := Size(c);
    if |data| < n then []
    else
      var (x, next) := Chained(p, c, encrypt, iv, data[..n]);
      x + Cbc(p, c, encrypt, next, data[n..])
  }

  /** Data made of whole blocks. */
  predicate Whole(n: nat, data: seq<byte>)
    decreases |data|
  {
    data == [] || (0 < n <= |data| && Whole(n, data[n..]))
  }

  lemma {:induction false} WholeExactly(n: nat, data: seq<byte>)
    requires n > 0
    ensures Whole(n, data) <==> |data| % n == 0
    decreases |data|
  {
    if |data| >= n {
      WholeExactly(n, data[n..]);
      Shift(|data|, n);
    }
  }

  lemma Shift(a: nat, n: nat)
    requires 0 < n <= a
    ensures (a - n) % n == a % n
  {
    assert a == (a / n) * n + a % n;
    assert a - n == (a / n - 1) * n + a % n;
    Divided(a / n - 1, n, a % n);
  }

  lemma {:induction false} CbcLength(p: Primitives, c: Cipher, encrypt: bool, iv: seq<byte>, data: seq<byte>)
    requires |iv| == Size(c) && Whole(Size(c), data)
    ensures |Cbc(p, c, encrypt, iv, data)| == |data|
    ensures Whole(Size(c), Cbc(p, c, encrypt, iv, data))
    decreases |data|
  {
    hide Chained;
    if data != [] {
      var n := Size(c);
      var (x, next) := Chained(p, c, encrypt, iv, data[..n]);
      CbcLength(p, c, encrypt, next, data[n..]);
      assert Cbc(p, c, encrypt, iv, data)[n..] == Cbc(p, c, encrypt, next, data[n..]);
    }
  }

  lemma ChainedUndone(p: Primitives, c: Cipher, encrypt: bool, chain: seq<byte>, block: seq<byte>)
    requires Inverts(p, c) && Keyed(c) && |chain| == |block| == Size(c)
    ensures var (x, next) := Chained(p, c, encrypt, chain, block);
            Chained(p, c, !encrypt, chain, x) == (block, next)
  {
    hide Through, Xor, Inverts;
    if encrypt {
      ThroughUndone(p, c, true, Xor(block, chain));
      XorTwice(block, chain);
    } else {
      ThroughUndone(p, c, false, block);
      XorTwice(Through(p, c, false, block), chain);
    }
  }

  /** Chaining in one direction undoes chaining in the other from the same vector. */
  lemma {:induction false} CbcUndone(p: Primitives, c: Cipher, encrypt: bool, iv: seq<byte>, data: seq<byte>)
    requires Inverts(p, c) && Keyed(c) && |iv| == Size(c) && Whole(Size(c), data)
    ensures Cbc(p, c, !encrypt, iv, Cbc(p, c, encrypt, iv, data)) == data
    decreases |data|
  {
    hide Chained, Inverts;
    if data != [] {
      var n := Size(c);
      var (x, next) := Chained(p, c, encrypt, iv, data[..n]);
      var out := Cbc(p, c, encrypt, iv, data);
      ChainedUndone(p, c, encrypt, iv, data[..n]);
      assert out[..n] == x && out[n..] == Cbc(p, c, encrypt, next, data[n..]);
      CbcUndone(p, c, encrypt, next, data[n..]);
    }
  }

  method RunBlock(p: Primitives, c: Cipher, encrypt: bool, block: seq<byte>) returns (r: seq<byte>)
    requires |block| == Size(c)
    ensures r == Through(p, c, encrypt, block)
  {
    match c {
      case Des(key) => r := DesBlock.CipherBlock(p.desRound, p.desKeys(key), encrypt, block);
      case Rc2(key) => r := Rc2Block.CipherBlock(p.rc2Keys(key), encrypt, block);
      case Aes(key) => r := p.aes(key, encrypt, block);
    }
  }

  method RunChained(p: Primitives, c: Cipher, encrypt: bool, chain: seq<byte>, block: seq<byte>)
    returns (x: seq<byte>, next: seq<byte>)
    requires |chain| == |block| == Size(c)
    ensures (x, next) == Chained(p, c, encrypt, chain, block)
  {
    hide Through, Xor;
    if encrypt {
      x := RunBlock(p, c, true, Xor(block, chain));
      next := x;
    } else {
      var y := RunBlock(p, c, false, block);
      x, next := Xor(y, chain), block;
    }
  }

  /** The block loop of the source. */
  method RunCbc(p: Primitives, c: Cipher, encrypt: bool, iv: seq<byte>, data: seq<byte>) returns (out: seq<byte>)
    requires |iv| == Size(c)
    ensures out == Cbc(p, c, encrypt, iv, data)
  {
    hide Chained, Cbc, Size;
    var n, chain, at := Size(c), iv, 0;
    out := [];
    assert data[0..] == data;
    assert n > 0 by { SizePositive(c); }
    while at + n <= |data|
      invariant 0 <= at <= |data| && |chain| == n
      invariant out + Cbc(p, c, encrypt, chain, data[at..]) == Cbc(p, c, encrypt, iv, data)
    {
      var x, next := RunChained(p, c, encrypt, chain, data[at..at + n]);
      FirstBlock(p, c, encrypt, chain, data[at..]);
      assert data[at..][..n] == data[at..at + n] && data[at..][n..] == data[at + n..];
      out, chain, at := out + x, next, at + n;
    }
    NoBlock(p, c, encrypt, chain, data[at..]);
  }

  lemma SizePositive(c: Cipher)
    ensures Size(c) > 0
  {
  }

  lemma FirstBlock(p: Primitives, c: Cipher, encrypt: bool, chain: seq<byte>, data: seq<byte>)
    requires |chain| == Size(c) <= |data|
    ensures var (x, next) := Chained(p, c, encrypt, chain, data[..Size(c)]);
            Cbc(p, c, encrypt, chain, data) == x + Cbc(p, c, encrypt, next, data[Size(c)..])
  {
    hide Chained;
  }

  lemma NoBlock(p: Primitives, c: Cipher, encrypt: bool, chain: seq<byte>, data: seq<byte>)
    requires |chain| == Size(c) && |data| < Size(c)
    ensures Cbc(p, c, encrypt, chain, data) == []
  {
  }

  // ----- Block by block -----

  /** Block `i`, where it is whole. */
  function BlockAt(n: nat, data: seq<byte>, i: nat): (r: seq<byte>)
    ensures |r| == n || r == []
  {
    if n * i + n <= |data| then data[n * i..n * i + n] else []
  }

  /** Block `i` of `out` is the cipher of block `i` of `data` xored with block `i - 1` of `out`, or with the vector. */
  predicate SealedAt(p: Primitives, c: Cipher, iv: seq<byte>, data: seq<byte>, out: seq<byte>, i: nat) {
    var n := Size(c);
    var block, chain := BlockAt(n, data, i), if i == 0 then iv else BlockAt(n, out, i - 1);
    |block| == |chain| == n && BlockAt(n, out, i) == Through(p, c, true, Xor(block, chain))
  }

  /** Every whole block of a ciphertext is chained to the one before it. */
  lemma {:induction false} SealedBlock(p: Primitives, c: Cipher, iv: seq<byte>, data: seq<byte>, i: nat)
    requires |iv| == Size(c) && Whole(Size(c), data) && Size(c) * i + Size(c) <= |data|
    ensures SealedAt(p, c, iv, data, Cbc(p, c, true, iv, data), i)
    decreases i
  {
    hide Through, Xor, Size, Cbc;
    var n := Size(c);
    SizePositive(c);
    Shorter(n, data, i);
    var (x, next) := Chained(p, c, true, iv, data[..n]);
    FirstBlock(p, c, true, iv, data);
    var out, rest := Cbc(p, c, true, iv, data), Cbc(p, c, true, next, data[n..]);
    assert out[..n] == x && out[n..] == rest;
    FrontBlock(n, data);
    FrontBlock(n, out);
    if i > 0 {
      SealedBlock(p, c, next, data[n..], i - 1);
      hide BlockAt;
      Later(n, data, i);
      Later(n, out, i);
      if i > 1 {
        Later(n, out, i - 1);
      }
    }
  }

  lemma Shorter(n: nat, data: seq<byte>, i: nat)
    requires 0 < n && n * i + n <= |data| && Whole(n, data)
    ensures n <= |data| && Whole(n, data[n..]) && (i > 0 ==> n * (i - 1) + n <= |data[n..]|)
  {
    assert i > 0 ==> n * (i - 1) + n == n * i;
    assert n * i >= 0;
  }

  lemma FrontBlock(n: nat, data: seq<byte>)
    requires n <= |data|
    ensures BlockAt(n, data, 0) == data[..n]
  {
    assert n * 0 == 0;
  }

  lemma Later(n: nat, data: seq<byte>, i: nat)
    requires 0 < i && n <= |data|
    ensures BlockAt(n, data[n..], i - 1) == BlockAt(n, data, i)
  {
    assert n * (i - 1) + n == n * i;
    var a := n * (i - 1);
    if a + n <= |data[n..]| {
      assert data[n..][a..a + n] == data[a + n..a + n + n];
    }
  }

  // ----- Triple DES -----

  predicate TripleKeyed(key: seq<byte>) {
    |key| >= 16
  }

  /** Three chained passes under the three parts of the key; the third part of a short key is the first. */
  function Triple(p: Primitives, key: seq<byte>, encrypt: bool, iv: seq<byte>, data: seq<byte>): seq<byte>
    requires TripleKeyed(key) && |iv| == 8
  {
    var k1, k2 := Des(key[..8]), Des(key[8..16]);
    var k3 := if |key| >= 24 then Des(key[16..24]) else k1;
    if encrypt then Cbc(p, k3, true, iv, Cbc(p, k2, false, iv, Cbc(p, k1, true, iv, data)))
    else Cbc(p, k1, false, iv, Cbc(p, k2, true, iv, Cbc(p, k3, false, iv, data)))
  }

  method RunTriple(p: Primitives, key: seq<byte>, encrypt: bool, iv: seq<byte>, data: seq<byte>)
    returns (out: seq<byte>)
    requires TripleKeyed(key) && |iv| == 8
    ensures out == Triple(p, key, encrypt, iv, data)
  {
    hide Cbc;
    var k1, k2 := Des(key[..8]), Des(key[8..16]);
    var k3 := if |key| >= 24 then Des(key[16..24]) else k1;
    var one := RunCbc(p, if encrypt then k1 else k3, encrypt, iv, data);
    var two := RunCbc(p, k2, !encrypt, iv, one);
    out := RunCbc(p, if encrypt then k3 else k1, encrypt, iv, two);
  }

  lemma TripleLength(p: Primitives, key: seq<byte>, encrypt: bool, iv: seq<byte>, data: seq<byte>)
    requires TripleKeyed(key) && |iv| == 8 && Whole(8, data)
    ensures |Triple(p, key, encrypt, iv, data)| == |data|
  {
    hide Cbc, Whole;
    var k2 := Des(key[8..16]);
    var k3 := if |key| >= 24 then Des(key[16..24]) else Des(key[..8]);
    var a, c := if encrypt then Des(key[..8]) else k3, if encrypt then k3 else Des(key[..8]);
    var one := Cbc(p, a, encrypt, iv, data);
    CbcLength(p, a, encrypt, iv, data);
    CbcLength(p, k2, !encrypt, iv, one);
    CbcLength(p, c, encrypt, iv, Cbc(p, k2, !encrypt, iv, one));
  }

  lemma TripleUndone(p: Primitives, key: seq<byte>, encrypt: bool, iv: seq<byte>, data: seq<byte>)
    requires TripleKeyed(key) && |iv| == 8 && Whole(8, data)
    ensures Triple(p, key, !encrypt, iv, Triple(p, key, encrypt, iv, data)) == data
  {
    hide Cbc, Whole;
    var k2 := Des(key[8..16]);
    var k3 := if |key| >= 24 then Des(key[16..24]) else Des(key[..8]);
    var a, c := if encrypt then Des(key[..8]) else k3, if encrypt then k3 else Des(key[..8]);
    var one := Cbc(p, a, encrypt, iv, data);
    var two := Cbc(p, k2, !encrypt, iv, one);
    CbcLength(p, a, encrypt, iv, data);
    CbcLength(p, k2, !encrypt, iv, one);
    CbcUndone(p, c, encrypt, iv, two);
    CbcUndone(p, k2, !encrypt, iv, one);
    CbcUndone(p, a, encrypt, iv, data);
  }

  /** With equal first or equal last key parts, triple DES is single DES under the remaining part. */
  lemma TripleCollapses(p: Primitives, key: seq<byte>, iv: seq<byte>, data: seq<byte>)
    requires |key| >= 24 && |iv| == 8 && Whole(8, data)
    ensures key[..8] == key[8..16] ==> Triple(p, key, true, iv, data) == Cbc(p, Des(key[16..24]), true, iv, data)
    ensures key[8..16] == key[16..24] ==> Triple(p, key, true, iv, data) == Cbc(p, Des(key[..8]), true, iv, data)
  {
    hide Cbc, Whole;
    var k1, k2 := Des(key[..8]), Des(key[8..16]);
    CbcUndone(p, k1, true, iv, data);
    CbcLength(p, k1, true, iv, data);
    CbcUndone(p, k2, false, iv, Cbc(p, k1, true, iv, data));
  }
}
