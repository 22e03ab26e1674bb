/**
DES on one block (FIPS 46-3): sixteen Feistel rounds between the initial and
the final permutation.

Bits are numbered from the most significant one, as the permutation tables
number them. The round function and the key schedule are parameters: nothing
here depends on what they compute.
*/
module DesBlock {
  import opened Bits
  import opened Bytes

  type Half = s: seq<bool> | |s| == 32 witness seq(32, i => false)
  type RoundKey = s: seq<bool> | |s| == 48 witness seq(48, i => false)
  type RoundKeys = s: seq<RoundKey> | |s| == 16 witness seq(16, i => seq(48, j => false))
  type RoundFunction = (Half, RoundKey) -> Half
  type Block = s: seq<byte> | |s| == 8 witness seq(8, i => 0)
  type BlockBits = s: seq<bool> | |s| == 64 witness seq(64, i => false)

  // ----- Permutations -----

  // Each row of the initial table counts down from its first entry by eight,
  // and each column of the final table counts down by one.
  const INITIAL_ROWS: seq<nat> := [58, 60, 62, 64, 57, 59, 61, 63]
  const FINAL_COLUMNS: seq<nat> := [40, 8, 48, 16, 56, 24, 64, 32]

  type Place = i: int | 0 <= i < 64

  function Initial(i: Place): (r: Place) {
    INITIAL_ROWS[i / 8] - 8 * (i % 8) - 1
  }

  function Final(i: Place): (r: Place) {
    FINAL_COLUMNS[i % 8] - i / 8 - 1
  }

  lemma At(row: nat, column: nat)
    requires row < 8 && column < 8
    ensures Initial(8 * row + column) == 8 * (7 - column) + (INITIAL_ROWS[row] - 57)
    ensures Final(8 * row + column) == FINAL_COLUMNS[column] - row - 1
  {
    var i := 8 * row + column;
    assert i / 8 == row && i % 8 == column;
  }

  lemma FinalAfterInitial(i: Place)
    ensures Final(Initial(i)) == i
  {
    hide Initial, Final;
    var row, column := i / 8, i % 8;
    At(row, column);
    At(7 - column, INITIAL_ROWS[row] - 57);
    assert FINAL_COLUMNS[INITIAL_ROWS[row] - 57] == 8 * row + 8;
  }

  lemma InitialAfterFinal(i: Place)
    ensures Initial(Final(i)) == i
  {
    hide Initial, Final;
    var row, column := i / 8, i % 8;
    At(row, column);
    var from := FINAL_COLUMNS[column] / 8 - 1;
    assert FINAL_COLUMNS[column] == 8 * from + 8;
    At(from, 7 - row);
    assert INITIAL_ROWS[from] == 57 + column;
  }

  /** The block whose bit `i` is the input's bit `place(i)`. */
  function Permute(bits: BlockBits, place: Place -> Place): BlockBits {
    seq(64, i requires 0 <= i < 64 => bits[place(i)])
  }

  lemma PermutationsInverse(bits: BlockBits)
    ensures Permute(Permute(bits, Initial), Final) == bits
    ensures Permute(Permute(bits, Final), Initial) == bits
  {
    forall i: Place
      ensures Permute(Permute(bits, Initial), Final)[i] == bits[i]
      ensures Permute(Permute(bits, Final), Initial)[i] == bits[i]
    {
      FinalAfterInitial(i);
      InitialAfterFinal(i);
    }
  }

  // ----- Rounds -----

  function XorHalf(a: Half, b: Half): Half {
    Differ(a, b)
  }

  lemma XorHalfTwice(a: Half, b: Half)
    ensures XorHalf(XorHalf(a, b), b) == a
  {
  }

  /** The halves after one Feistel round a key. */
  function Rounds(f: RoundFunction, keys: seq<RoundKey>, left: Half, right: Half): (Half, Half)
    decreases |keys|
  {
    if keys == [] then (left, right) else Rounds(f, keys[1..], right, XorHalf(left, f(right, keys[0])))
  }

  function Reversed(keys: seq<RoundKey>): (r: seq<RoundKey>)
    ensures |r| == |keys|
    ensures forall i | 0 <= i < |keys| :: r[i] == keys[|keys| - 1 - i]
  {
    if keys == [] then [] else Reversed(keys[1..]) + [keys[0]]
  }

  lemma {:induction false} RoundsThen(f: RoundFunction, keys: seq<RoundKey>, last: RoundKey, left: Half, right: Half)
    ensures var (l, r) := Rounds(f, keys, left, right);
            Rounds(f, keys + [last], left, right) == (r, XorHalf(l, f(r, last)))
    decreases |keys|
  {
    if keys == [] {
      assert Rounds(f, [last][1..], right, XorHalf(left, f(right, last))) == (right, XorHalf(left, f(right, last)));
    } else {
      assert (keys + [last])[1..] == keys[1..] + [last];
      RoundsThen(f, keys[1..], last, right, XorHalf(left, f(right, keys[0])));
    }
  }

  /** Running the rounds with the keys reversed on the swapped halves swaps the first halves back. */
  lemma {:induction false} RoundsUndone(f: RoundFunction, keys: seq<RoundKey>, left: Half, right: Half)
    ensures var (l, r) := Rounds(f, keys, left, right);
            Rounds(f, Reversed(keys), r, l) == (right, left)
    decreases |keys|
  {
    if keys != [] {
      var next := XorHalf(left, f(right, keys[0]));
      var (l, r) := Rounds(f, keys[1..], right, next);
      RoundsUndone(f, keys[1..], right, next);
      RoundsThen(f, Reversed(keys[1..]), keys[0], r, l);
      XorHalfTwice(left, f(right, keys[0]));
    }
  }

  // ----- Blocks of bits -----

  /** The block cipher on bits: permute, sixteen rounds, swap, permute back. */
  function CipherBits(f: RoundFunction, keys: RoundKeys, bits: BlockBits): BlockBits {
    var start := Permute(bits, Initial);
    var (left, right) := Rounds(f, keys, start[..32], start[32..]);
    Permute(right + left, Final)
  }

  lemma BitsUndone(f: RoundFunction, keys: RoundKeys, bits: BlockBits)
    ensures CipherBits(f, Reversed(keys), CipherBits(f, keys, bits)) == bits
  {
    hide Permute, Rounds, Reversed;
    var start := Permute(bits, Initial);
    var (left, right) := Rounds(f, keys, start[..32], start[32..]);
    PermutationsInverse(right + left);
    PermutationsInverse(bits);
    RoundsUndone(f, keys, start[..32], start[32..]);
    assert (right + left)[..32] == right && (right + left)[32..] == left;
    assert start[..32] + start[32..] == start;
  }

  lemma ReversedTwice(keys: seq<RoundKey>)
    ensures Reversed(Reversed(keys)) == keys
  {
  }

  // ----- Blocks of bytes -----

  function Unpacked(bytes: seq<byte>): (r: seq<bool>)
    ensures |r| == 8 * |bytes|
  {
    if bytes == [] then [] else ByteBits(bytes[0]) + Unpacked(bytes[1..])
  }

  function Packed(bits: seq<bool>): (r: seq<byte>)
    ensures 8 * |r| <= |bits| < 8 * |r| + 8
  {
    if |bits| < 8 then [] else [BitsByte(bits[..8])] + Packed(bits[8..])
  }

  lemma {:induction false} UnpackedReadBack(bytes: seq<byte>)
    ensures Packed(Unpacked(bytes)) == bytes
  {
    hide BitsByte;
    if bytes != [] {
      ByteReadBack(bytes[0]);
      UnpackedReadBack(bytes[1..]);
      assert Unpacked(bytes)[..8] == ByteBits(bytes[0]);
      assert Unpacked(bytes)[8..] == Unpacked(bytes[1..]);
    }
  }

  lemma {:induction false} PackedReadBack(bits: seq<bool>, count: nat)
    requires |bits| == 8 * count
    ensures Unpacked(Packed(bits)) == bits
  {
    hide BitsByte, ByteBits;
    if count > 0 {
      BitsReadBack(bits[..8]);
      PackedReadBack(bits[8..], count - 1);
      assert Packed(bits)[1..] == Packed(bits[8..]);
    }
  }

  /** One block through DES, with the keys in order or reversed. */
  function Cipher(f: RoundFunction, keys: RoundKeys, encrypt: bool, block: Block): Block {
    Packed(CipherBits(f, if encrypt then keys else Reversed(keys), Unpacked(block)))
  }

  /** Decryption undoes encryption and encryption undoes decryption, for every round function and key schedule. */
  lemma CipherUndone(f: RoundFunction, keys: RoundKeys, encrypt: bool, block: Block)
    ensures Cipher(f, keys, !encrypt, Cipher(f, keys, encrypt, block)) == block
  {
    hide CipherBits, Packed, Unpacked, Reversed;
    var order := if encrypt then keys else Reversed(keys);
    var bits := CipherBits(f, order, Unpacked(block));
    PackedReadBack(bits, 8);
    BitsUndone(f, order, Unpacked(block));
    ReversedTwice(keys);
    UnpackedReadBack(block);
  }

  /** The round loop, picking each key by the direction. */
  method CipherBlock(f: RoundFunction, keys: RoundKeys, encrypt: bool, block: Block) returns (r: Block)
    ensures r == Cipher(f, keys, encrypt, block)
  {
    hide Permute, XorHalf, Packed, Unpacked;
    var start := Permute(Unpacked(block), Initial);
    var left: Half, right: Half := start[..32], start[32..];
    ghost var order := if encrypt then keys else Reversed(keys);
    ghost var end := Rounds(f, order, left, right);
    assert order[0..] == order;
    for round := 0 to 16
      invariant Rounds(f, order[round..], left, right) == end
    {
      var key := keys[if encrypt then round else 15 - round];
      assert order[round..][1..] == order[round + 1..] && order[round] == key;
      left, right := right, XorHalf(left, f(right, key));
    }
    assert order[16..] == [];
    r := Packed(Permute(right + left, Final));
  }
}
