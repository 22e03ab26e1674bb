/** RC4: a key stream that depends only on the key, xored onto the data. */
module Rc4 {
  import opened Bits
  import opened Bytes

  type Table = s: seq<byte> | |s| == 256 witness seq(256, i => 0)

  // ----- The key stream -----

  function Sum(a: byte, b: byte): byte {
    (a as int + b as int) % 256
  }

  function Identity(): Table {
    seq(256, i requires 0 <= i < 256 => i)
  }

  function Swapped(s: Table, i: byte, j: byte): Table {
    s[i := s[j]][j := s[i]]
  }

  function KeyByte(key: seq<byte>, i: nat): byte {
    if key == [] then 0 else key[i % |key|]
  }

  /** The table and `j` after the first `n` steps of the key schedule. */
  function Scheduled(key: seq<byte>, n: nat): (Table, byte)
    requires n <= 256
  {
    if n == 0 then (Identity(), 0)
    else
      var (s, j) := Scheduled(key, n - 1);
      var next := Sum(Sum(j, s[n - 1]), KeyByte(key, n - 1));
      (Swapped(s, n - 1, next), next)
  }

  datatype Generator = Generator(table: Table, i: byte, j: byte)

  function Advanced(g: Generator): Generator {
    var i := Sum(g.i, 1);
    var j := Sum(g.j, g.table[i]);
    Generator(Swapped(g.table, i, j), i, j)
  }

  function Output(g: Generator): byte {
    g.table[Sum(g.table[g.i], g.table[g.j])]
  }

  /** The generator after `n` bytes of output. */
  function After(key: seq<byte>, n: nat): Generator {
    if n == 0 then Generator(Scheduled(key, 256).0, 0, 0) else Advanced(After(key, n - 1))
  }

  /** The first `n` bytes of the key stream. */
  function KeyStream(key: seq<byte>, n: nat): (r: seq<byte>)
    ensures |r| == n
  {
    if n == 0 then [] else KeyStream(key, n - 1) + [Output(After(key, n))]
  }

  function Cipher(key: seq<byte>, data: seq<byte>): (r: seq<byte>)
    ensures |r| == |data|
  {
    Xor(data, KeyStream(key, |data|))
  }

  /** Applying the cipher twice under one key gives the data back. */
  lemma CipherUndone(key: seq<byte>, data: seq<byte>)
    ensures Cipher(key, Cipher(key, data)) == data
  {
    hide KeyStream, Xor;
    XorTwice(data, KeyStream(key, |data|));
  }

  // ----- The table in place -----

  method Swap(s: array<byte>, i: byte, j: byte)
    requires s.Length == 256
    modifies s
    ensures s[..] == Swapped(old(s[..]), i, j)
  {
    s[i], s[j] := s[j], s[i];
  }

  method Schedule(key: seq<byte>, s: array<byte>)
    requires s.Length == 256
    modifies s
    ensures s[..] == Scheduled(key, 256).0
  {
    for i := 0 to 256
      invariant forall k | 0 <= k < i :: s[k] == k
    {
      s[i] := i;
    }
    assert s[..] == Identity();
    hide Swapped, Identity, Sum, KeyByte;
    var j: byte := 0;
    for i := 0 to 256
      invariant (s[..], j) == Scheduled(key, i)
    {
      j := Sum(Sum(j, s[i]), KeyByte(key, i));
      Swap(s, i, j);
    }
  }

  method Next(s: array<byte>, i0: byte, j0: byte) returns (i: byte, j: byte, k: byte)
    requires s.Length == 256
    modifies s
    ensures Generator(s[..], i, j) == Advanced(Generator(old(s[..]), i0, j0))
    ensures k == Output(Generator(s[..], i, j))
  {
    hide Swapped, Sum;
    i := Sum(i0, 1);
    j := Sum(j0, s[i]);
    Swap(s, i, j);
    k := s[Sum(s[i], s[j])];
  }

  /** The source's two loops compute the cipher. */
  method Run(key: seq<byte>, data: seq<byte>) returns (out: seq<byte>)
    ensures out == Cipher(key, data)
  {
    hide Advanced, Scheduled, Output, Xor, Masked;
    var s := new byte[256];
    Schedule(key, s);
    var i: byte, j: byte, k := 0, 0, 0;
    out := [];
    for n := 0 to |data|
      invariant Generator(s[..], i, j) == After(key, n)
      invariant out == Xor(data[..n], KeyStream(key, n))
    {
      i, j, k := Next(s, i, j);
      XorThen(data[..n], KeyStream(key, n), data[n], k);
      assert data[..n + 1] == data[..n] + [data[n]];
      out := out + [Masked(data[n], k)];
    }
    assert data[..|data|] == data;
  }
}
