/** Fixed-width integers and their little-endian byte forms. */
module Bytes {

  type byte = n: int | 0 <= n < 0x100
  type u16 = n: int | 0 <= n < 0x1_0000
  type u32 = n: int | 0 <= n < 0x1_0000_0000
  type u64 = n: int | 0 <= n < 0x1_0000_0000_0000_0000
  /** Lengths and cursors of a 64-bit host. */
  type usize = n: int | 0 <= n < 0x1_0000_0000_0000_0000

  const TWO_16 := 0x1_0000
  const TWO_32 := 0x1_0000_0000
  const TWO_64 := 0x1_0000_0000_0000_0000
  /** No slice of the host language is longer than this. */
  const MAX_SLICE := 0x7fff_ffff_ffff_ffff

  function Le16(s: seq<byte>, i: nat): u16
    requires i + 2 <= |s|
  {
    s[i] as int + 0x100 * s[i + 1] as int
  }

  function Le32(s: seq<byte>, i: nat): u32
    requires i + 4 <= |s|
  {
    Le16(s, i) + TWO_16 * Le16(s, i + 2)
  }

  function Le64(s: seq<byte>, i: nat): u64
    requires i + 8 <= |s|
  {
    Le32(s, i) + TWO_32 * Le32(s, i + 4)
  }

  function Bytes16(n: u16): (s: seq<byte>)
    ensures |s| == 2
  {
    [n % 0x100, n / 0x100]
  }

  function Bytes32(n: u32): (s: seq<byte>)
    ensures |s| == 4
  {
    Bytes16(n % TWO_16) + Bytes16(n / TWO_16)
  }

  function Bytes64(n: u64): (s: seq<byte>)
    ensures |s| == 8
  {
    Bytes32(n % TWO_32) + Bytes32(n / TWO_32)
  }

  /** Writing a word and reading it back, anywhere inside a longer buffer. */
  lemma ReadBack16(s: seq<byte>, i: nat, n: u16)
    requires i + 2 <= |s| && s[i..i + 2] == Bytes16(n)
    ensures Le16(s, i) == n
  {
    assert s[i] == s[i..i + 2][0] && s[i + 1] == s[i..i + 2][1];
  }

  lemma ReadBack32(s: seq<byte>, i: nat, n: u32)
    requires i + 4 <= |s| && s[i..i + 4] == Bytes32(n)
    ensures Le32(s, i) == n
  {
    assert s[i..i + 2] == s[i..i + 4][..2];
    assert s[i + 2..i + 4] == s[i..i + 4][2..];
    ReadBack16(s, i, n % TWO_16);
    ReadBack16(s, i + 2, n / TWO_16);
  }

  lemma ReadBack64(s: seq<byte>, i: nat, n: u64)
    requires i + 8 <= |s| && s[i..i + 8] == Bytes64(n)
    ensures Le64(s, i) == n
  {
    assert s[i..i + 4] == s[i..i + 8][..4];
    assert s[i + 4..i + 8] == s[i..i + 8][4..];
    ReadBack32(s, i, n % TWO_32);
    ReadBack32(s, i + 4, n / TWO_32);
  }

  /** Reading a word and writing it back leaves the bytes as they were. */
  lemma WriteBack16(s: seq<byte>, i: nat)
    requires i + 2 <= |s|
    ensures Bytes16(Le16(s, i)) == s[i..i + 2]
  {
  }

  lemma ShortHalvesBack(low: u16, high: u16)
    ensures (low + TWO_16 * high) % TWO_16 == low && (low + TWO_16 * high) / TWO_16 == high
  {
  }

  lemma WriteBack32(s: seq<byte>, i: nat)
    requires i + 4 <= |s|
    ensures Bytes32(Le32(s, i)) == s[i..i + 4]
  {
    hide Le16, Bytes16;
    ShortHalvesBack(Le16(s, i), Le16(s, i + 2));
    WriteBack16(s, i);
    WriteBack16(s, i + 2);
    assert s[i..i + 4] == s[i..i + 2] + s[i + 2..i + 4];
  }

  lemma HalvesBack(low: u32, high: u32)
    ensures (low + TWO_32 * high) % TWO_32 == low && (low + TWO_32 * high) / TWO_32 == high
  {
  }

  lemma WriteBack64(s: seq<byte>, i: nat)
    requires i + 8 <= |s|
    ensures Bytes64(Le64(s, i)) == s[i..i + 8]
  {
    hide Le32, Bytes32;
    WriteBack32(s, i);
    WriteBack32(s, i + 4);
    HalvesBack(Le32(s, i), Le32(s, i + 4));
    assert s[i..i + 8] == s[i..i + 4] + s[i + 4..i + 8];
  }

  /** A word does not depend on the buffer it is read from, only on its bytes. */
  lemma SameBytesSameWord(s: seq<byte>, i: nat, t: seq<byte>, j: nat)
    requires i + 4 <= |s| && j + 4 <= |t|
    requires s[i..i + 4] == t[j..j + 4]
    ensures Le32(s, i) == Le32(t, j)
  {
    WriteBack32(s, i);
    WriteBack32(t, j);
    ReadBack32(t, j, Le32(s, i));
  }

  lemma SliceOfSlice<T>(s: seq<T>, a: nat, b: nat, c: nat, d: nat)
    requires a <= b <= |s| && c <= d <= b - a
    ensures s[a..b][c..d] == s[a + c..a + d]
  {
    var left, right := s[a..b][c..d], s[a + c..a + d];
    assert forall k | 0 <= k < d - c :: left[k] == right[k];
  }

  /** A slice that is two parts one after the other. */
  lemma Parted<T>(s: seq<T>, at: nat, a: seq<T>, b: seq<T>)
    requires at + |a| + |b| <= |s| && s[at..at + |a| + |b|] == a + b
    ensures s[at..at + |a|] == a && s[at + |a|..at + |a| + |b|] == b
  {
    var all := s[at..at + |a| + |b|];
    assert (a + b)[..|a|] == a && (a + b)[|a|..] == b;
    SliceOfSlice(s, at, at + |a| + |b|, 0, |a|);
    SliceOfSlice(s, at, at + |a| + |b|, |a|, |a| + |b|);
    assert all[0..|a|] == all[..|a|] && all[|a|..|a| + |b|] == all[|a|..];
  }

  predicate AllZero(s: seq<byte>) {
    forall k | 0 <= k < |s| :: s[k] == 0
  }

  function Zeros(n: nat): (s: seq<byte>)
    ensures |s| == n && AllZero(s)
  {
    seq(n, _ => 0)
  }

  /** The round-up `(n + 3) & !3`. */
  function Align4(n: nat): (a: nat)
    ensures n <= a < n + 4 && a % 4 == 0
  {
    (n + 3) / 4 * 4
  }
}
