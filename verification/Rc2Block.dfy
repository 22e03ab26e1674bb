/**
RC2 on one block (sections 3 and 4 of RFC 2268): sixteen mixing rounds and two
mashing rounds over four 16-bit words, and the reverse rounds. The expanded key
is any table of 64 words.
*/
module Rc2Block {
  import opened Bits
  import opened Bytes

  type Word = w: int | 0 <= w < 0x1_0000
  type Table = k: seq<Word> | |k| == 64 witness seq(64, i => 0)
  type Words = r: seq<Word> | |r| == 4 witness seq(4, i => 0)
  type Block = s: seq<byte> | |s| == 8 witness seq(8, i => 0)
  type Index = i: int | 0 <= i < 4
  type KeyIndex = j: int | 0 <= j < 64

  // ----- Word arithmetic -----

  function Add(x: Word, a: Word): Word {
    if x + a < 0x1_0000 then x + a else x + a - 0x1_0000
  }

  function Subtract(x: Word, a: Word): Word {
    if a <= x then x - a else x - a + 0x1_0000
  }

  lemma Cancel(x: Word, a: Word)
    ensures Subtract(Add(x, a), a) == x && Add(Subtract(x, a), a) == x
  {
  }

  lemma CancelTwo(x: Word, a: Word, b: Word)
    ensures Subtract(Subtract(Add(Add(x, a), b), a), b) == x
    ensures Add(Add(Subtract(Subtract(x, a), b), a), b) == x
  {
  }

  function Rotated(s: seq<bool>, k: nat): (r: seq<bool>)
    requires k <= |s|
    ensures |r| == |s|
  {
    s[k..] + s[..k]
  }

  lemma RotatedBack(s: seq<bool>, k: nat)
    requires k <= |s|
    ensures Rotated(Rotated(s, k), |s| - k) == s
  {
  }

  function WordBits(x: Word): (r: seq<bool>)
    ensures |r| == 16
  {
    BitsOf(x, 16)
  }

  function BitsWord(s: seq<bool>): Word
    requires |s| == 16
  {
    SixteenBits();
    ValueOf(s)
  }

  lemma WordBitsReadBack(x: Word)
    ensures BitsWord(WordBits(x)) == x
  {
    hide BitsOf, ValueOf, Power;
    SixteenBits();
    ValueOfBits(x, 16);
  }

  lemma BitsWordReadBack(s: seq<bool>)
    requires |s| == 16
    ensures WordBits(BitsWord(s)) == s
  {
    hide BitsOf, ValueOf, Power;
    BitsOfValue(s);
  }

  /** A word rotated left. */
  function Turned(x: Word, k: nat): Word
    requires k <= 16
  {
    BitsWord(Rotated(WordBits(x), k))
  }

  lemma TurnedBack(x: Word, k: nat)
    requires k <= 16
    ensures Turned(Turned(x, k), 16 - k) == x
  {
    hide WordBits, BitsWord, Rotated;
    BitsWordReadBack(Rotated(WordBits(x), k));
    RotatedBack(WordBits(x), k);
    WordBitsReadBack(x);
  }

  function Amount(i: Index): (r: nat)
    ensures r <= 16
  {
    if i == 0 then 1 else if i == 1 then 2 else if i == 2 then 3 else 5
  }

  function RotateLeft(x: Word, i: Index): Word {
    Turned(x, Amount(i))
  }

  function RotateRight(x: Word, i: Index): Word {
    Turned(x, 16 - Amount(i))
  }

  lemma RotationsInverse(x: Word, i: Index)
    ensures RotateRight(RotateLeft(x, i), i) == x && RotateLeft(RotateRight(x, i), i) == x
  {
    hide Turned, Amount;
    TurnedBack(x, Amount(i));
    TurnedBack(x, 16 - Amount(i));
  }

  function Both(a: Word, b: Word): Word {
    BitsWord(Common(WordBits(a), WordBits(b)))
  }

  function Without(a: Word, b: Word): Word {
    Both(a, 0xffff - b)
  }

  function Common(a: seq<bool>, b: seq<bool>): (r: seq<bool>)
    requires |a| == |b|
    ensures |r| == |a|
  {
    seq(|a|, i requires 0 <= i < |a| => a[i] && b[i])
  }

  /** The word made of the other three that a mixing step adds. */
  function Composite(r: Words, i: Index): Word {
    Add(Both(r[(i + 2) % 4], r[(i + 3) % 4]), Without(r[(i + 1) % 4], r[(i + 3) % 4]))
  }

  /** The key word that a mashing step adds. */
  function Picked(k: Table, r: Words, i: Index): Word {
    k[r[(i + 3) % 4] % 64]
  }

  // ----- One word at a time -----

  /** One step of the schedule: mix word `i` with key word `j`, or mash word `i`. */
  datatype Step = Mix(i: Index, j: KeyIndex) | Mash(i: Index)

  function Forward(k: Table, s: Step, r: Words): Words
  {
    match s
    case Mix(i, j) => r[i := RotateLeft(Add(Add(r[i], k[j]), Composite(r, i)), i)]
    case Mash(i) => r[i := Add(r[i], Picked(k, r, i))]
  }

  function Backward(k: Table, s: Step, r: Words): Words
  {
    match s
    case Mix(i, j) => r[i := Subtract(Subtract(RotateRight(r[i], i), k[j]), Composite(r, i))]
    case Mash(i) => r[i := Subtract(r[i], Picked(k, r, i))]
  }

  /** What a step adds does not depend on the word it is added to. */
  lemma AddendsUnchanged(k: Table, r: Words, i: Index, x: Word)
    ensures Composite(r[i := x], i) == Composite(r, i)
    ensures Picked(k, r[i := x], i) == Picked(k, r, i)
  {
    hide Add, Both, Without;
  }

  lemma BackwardAfterForward(k: Table, s: Step, r: Words)
    ensures Backward(k, s, Forward(k, s, r)) == r
  {
    hide RotateLeft, RotateRight, Composite, Picked, Add, Subtract;
    AddendsUnchanged(k, r, s.i, Forward(k, s, r)[s.i]);
    match s {
      case Mix(i, j) =>
        RotationsInverse(Add(Add(r[i], k[j]), Composite(r, i)), i);
        CancelTwo(r[i], k[j], Composite(r, i));
      case Mash(i) =>
        Cancel(r[i], Picked(k, r, i));
    }
  }

  lemma ForwardAfterBackward(k: Table, s: Step, r: Words)
    ensures Forward(k, s, Backward(k, s, r)) == r
  {
    hide RotateLeft, RotateRight, Composite, Picked, Add, Subtract;
    AddendsUnchanged(k, r, s.i, Backward(k, s, r)[s.i]);
    match s {
      case Mix(i, j) =>
        RotationsInverse(r[i], i);
        CancelTwo(RotateRight(r[i], i), k[j], Composite(r, i));
      case Mash(i) =>
        Cancel(r[i], Picked(k, r, i));
    }
  }

  // ----- Schedules -----

  function ForwardAll(k: Table, steps: seq<Step>, r: Words): Words
  {
    if steps == [] then r else ForwardAll(k, steps[1..], Forward(k, steps[0], r))
  }

  function BackwardAll(k: Table, steps: seq<Step>, r: Words): Words
  {
    if steps == [] then r else BackwardAll(k, steps[1..], Backward(k, steps[0], r))
  }

  function Reversed(steps: seq<Step>): (r: seq<Step>)
    ensures forall s :: s in r <==> s in steps
  {
    if steps == [] then [] else Reversed(steps[1..]) + [steps[0]]
  }

  lemma {:induction false} ForwardThen(k: Table, a: seq<Step>, b: seq<Step>, r: Words)
    ensures ForwardAll(k, a + b, r) == ForwardAll(k, b, ForwardAll(k, a, r))
    decreases |a|
  {
    hide Forward;
    if a == [] {
      assert a + b == b;
    } else {
      assert (a + b)[1..] == a[1..] + b;
      ForwardThen(k, a[1..], b, Forward(k, a[0], r));
    }
  }

  lemma {:induction false} BackwardThen(k: Table, a: seq<Step>, b: seq<Step>, r: Words)
    ensures BackwardAll(k, a + b, r) == BackwardAll(k, b, BackwardAll(k, a, r))
    decreases |a|
  {
    hide Backward;
    if a == [] {
      assert a + b == b;
    } else {
      assert (a + b)[1..] == a[1..] + b;
      BackwardThen(k, a[1..], b, Backward(k, a[0], r));
    }
  }

  /** The reversed schedule, taken backward, undoes the schedule. */
  lemma {:induction false} ScheduleUndone(k: Table, steps: seq<Step>, r: Words)
    ensures BackwardAll(k, Reversed(steps), ForwardAll(k, steps, r)) == r
    decreases |steps|
  {
    hide Forward, Backward;
    if steps != [] {
      var next := Forward(k, steps[0], r);
      ScheduleUndone(k, steps[1..], next);
      BackwardThen(k, Reversed(steps[1..]), [steps[0]], ForwardAll(k, steps, r));
      BackwardAfterForward(k, steps[0], r);
      assert BackwardAll(k, [steps[0]], next) == Backward(k, steps[0], next);
    }
  }

  lemma {:induction false} ScheduleRedone(k: Table, steps: seq<Step>, r: Words)
    ensures ForwardAll(k, steps, BackwardAll(k, Reversed(steps), r)) == r
    decreases |steps|
  {
    hide Forward, Backward;
    if steps != [] {
      var rest := BackwardAll(k, Reversed(steps[1..]), r);
      BackwardThen(k, Reversed(steps[1..]), [steps[0]], r);
      assert BackwardAll(k, [steps[0]], rest) == Backward(k, steps[0], rest);
      ForwardAfterBackward(k, steps[0], rest);
      ScheduleRedone(k, steps[1..], r);
    }
  }

  // ----- The two directions of the cipher -----

  function MixRound(j: nat): seq<Step>
    requires j + 4 <= 64
  {
    [Mix(0, j), Mix(1, j + 1), Mix(2, j + 2), Mix(3, j + 3)]
  }

  /** `rounds` mixing rounds from key word `j` up. */
  function MixRounds(j: nat, rounds: nat): seq<Step>
    requires j + 4 * rounds <= 64
    decreases rounds
  {
    if rounds == 0 then [] else MixRound(j) + MixRounds(j + 4, rounds - 1)
  }

  function ReverseMixRound(j: int): seq<Step>
    requires 3 <= j < 64
  {
    [Mix(3, j), Mix(2, j - 1), Mix(1, j - 2), Mix(0, j - 3)]
  }

  /** `rounds` reverse mixing rounds from key word `j` down. */
  function ReverseMixRounds(j: int, rounds: nat): seq<Step>
    requires j < 64 && 4 * rounds <= j + 1
    decreases rounds
  {
    if rounds == 0 then [] else ReverseMixRound(j) + ReverseMixRounds(j - 4, rounds - 1)
  }

  function MashRound(): seq<Step> {
    [Mash(0), Mash(1), Mash(2), Mash(3)]
  }

  function ReverseMashRound(): seq<Step> {
    [Mash(3), Mash(2), Mash(1), Mash(0)]
  }

  function Encryption(): seq<Step> {
    MixRounds(0, 5) + MashRound() + MixRounds(20, 6) + MashRound() + MixRounds(44, 5)
  }

  function Decryption(): seq<Step> {
    ReverseMixRounds(63, 5) + ReverseMashRound() +
    ReverseMixRounds(43, 6) + ReverseMashRound() + ReverseMixRounds(19, 5)
  }

  lemma {:induction false} ReversedConcat(a: seq<Step>, b: seq<Step>)
    ensures Reversed(a + b) == Reversed(b) + Reversed(a)
  {
    if a == [] {
      assert a + b == b;
    } else {
      assert (a + b)[1..] == a[1..] + b;
      ReversedConcat(a[1..], b);
    }
  }

  lemma ReversedFour(a: Step, b: Step, c: Step, d: Step)
    ensures Reversed([a, b, c, d]) == [d, c, b, a]
  {
    assert [a, b, c, d] == [a] + ([b] + ([c] + [d]));
    ReversedConcat([a], [b] + ([c] + [d]));
    ReversedConcat([b], [c] + [d]);
    ReversedConcat([c], [d]);
  }

  lemma FirstMixRound(j: nat, rounds: nat)
    requires 0 < rounds && j + 4 * rounds <= 64
    ensures MixRounds(j, rounds) == MixRound(j) + MixRounds(j + 4, rounds - 1)
  {
  }

  lemma FirstReverseMixRound(j: int, rounds: nat)
    requires 0 < rounds && j < 64 && 4 * rounds <= j + 1
    ensures ReverseMixRounds(j, rounds) == ReverseMixRound(j) + ReverseMixRounds(j - 4, rounds - 1)
  {
  }

  lemma {:induction false} ReverseMixRoundsThen(j: int, rounds: nat)
    requires j < 64 && 4 * (rounds + 1) <= j + 1
    ensures ReverseMixRounds(j, rounds + 1) == ReverseMixRounds(j, rounds) + ReverseMixRound(j - 4 * rounds)
    decreases rounds
  {
    FirstReverseMixRound(j, rounds + 1);
    if rounds == 0 {
      assert ReverseMixRounds(j, 0) == [] && ReverseMixRounds(j - 4, 0) == [];
    } else {
      hide ReverseMixRound, ReverseMixRounds;
      FirstReverseMixRound(j, rounds);
      ReverseMixRoundsThen(j - 4, rounds - 1);
      Associative(ReverseMixRound(j), ReverseMixRounds(j - 4, rounds - 1), ReverseMixRound(j - 4 * rounds));
    }
  }

  lemma Associative(a: seq<Step>, b: seq<Step>, c: seq<Step>)
    ensures a + (b + c) == (a + b) + c
  {
  }

  lemma {:induction false} MixRoundsReversed(j: nat, rounds: nat)
    requires j + 4 * rounds <= 64
    ensures Reversed(MixRounds(j, rounds)) == ReverseMixRounds(j + 4 * rounds - 1, rounds)
    decreases rounds
  {
    if rounds > 0 {
      hide MixRound, ReverseMixRound, Reversed;
      MixRoundsReversed(j + 4, rounds - 1);
      ReversedConcat(MixRound(j), MixRounds(j + 4, rounds - 1));
      RoundReversed(j);
      ReverseMixRoundsThen(j + 4 * rounds - 1, rounds - 1);
    }
  }

  lemma RoundReversed(j: nat)
    requires j + 4 <= 64
    ensures Reversed(MixRound(j)) == ReverseMixRound(j + 3)
  {
    ReversedFour(Mix(0, j), Mix(1, j + 1), Mix(2, j + 2), Mix(3, j + 3));
  }

  /** The decryption schedule, with its own key counter, is the encryption schedule reversed. */
  lemma DecryptionReversesEncryption()
    ensures Decryption() == Reversed(Encryption())
  {
    hide MixRounds, ReverseMixRounds, Reversed;
    var a, b, c := MixRounds(0, 5), MixRounds(20, 6), MixRounds(44, 5);
    MixRoundsReversed(0, 5);
    MixRoundsReversed(20, 6);
    MixRoundsReversed(44, 5);
    ReversedFour(Mash(0), Mash(1), Mash(2), Mash(3));
    ReversedConcat(a, MashRound());
    ReversedConcat(a + MashRound(), b);
    ReversedConcat(a + MashRound() + b, MashRound());
    ReversedConcat(a + MashRound() + b + MashRound(), c);
  }

  // ----- Blocks of bytes -----

  function Low(w: Word): byte {
    w % 256
  }

  function High(w: Word): byte {
    w / 256
  }

  function WordOf(low: byte, high: byte): Word {
    low as int + 256 * high as int
  }

  lemma BytesReadBack(low: byte, high: byte)
    ensures Low(WordOf(low, high)) == low && High(WordOf(low, high)) == high
  {
  }

  lemma WordReadBack(w: Word)
    ensures WordOf(Low(w), High(w)) == w
  {
  }

  function WordsOf(b: Block): Words {
    [WordOf(b[0], b[1]), WordOf(b[2], b[3]), WordOf(b[4], b[5]), WordOf(b[6], b[7])]
  }

  function BlockOf(r: Words): Block {
    [Low(r[0]), High(r[0]), Low(r[1]), High(r[1]), Low(r[2]), High(r[2]), Low(r[3]), High(r[3])]
  }

  lemma BlockReadBack(b: Block)
    ensures BlockOf(WordsOf(b)) == b
  {
    hide Low, High, WordOf;
    BytesReadBack(b[0], b[1]);
    BytesReadBack(b[2], b[3]);
    BytesReadBack(b[4], b[5]);
    BytesReadBack(b[6], b[7]);
  }

  lemma WordsReadBack(r: Words)
    ensures WordsOf(BlockOf(r)) == r
  {
    hide Low, High, WordOf;
    WordReadBack(r[0]);
    WordReadBack(r[1]);
    WordReadBack(r[2]);
    WordReadBack(r[3]);
  }

  function CipherWords(k: Table, encrypt: bool, r: Words): Words {
    if encrypt then ForwardAll(k, Encryption(), r) else BackwardAll(k, Decryption(), r)
  }

  /** One block through RC2 in either direction. */
  function Cipher(k: Table, encrypt: bool, block: Block): Block {
    BlockOf(CipherWords(k, encrypt, WordsOf(block)))
  }

  /** Each direction undoes the other, for every expanded key. */
  lemma CipherUndone(k: Table, encrypt: bool, block: Block)
    ensures Cipher(k, !encrypt, Cipher(k, encrypt, block)) == block
  {
    hide WordsOf, BlockOf, Encryption, Decryption, Reversed, ForwardAll, BackwardAll;
    var r := WordsOf(block);
    WordsReadBack(CipherWords(k, encrypt, r));
    DecryptionReversesEncryption();
    ScheduleUndone(k, Encryption(), r);
    ScheduleRedone(k, Encryption(), r);
    BlockReadBack(block);
  }

  // ----- The rounds as loops -----

  method MixWords(k: Table, encrypt: bool, start: Words, first: int) returns (r: Words, j: int)
    requires if encrypt then 0 <= first && first + 4 <= 64 else 3 <= first < 64
    ensures encrypt ==> r == ForwardAll(k, MixRounds(first, 1), start) && j == first + 4
    ensures !encrypt ==> r == BackwardAll(k, ReverseMixRounds(first, 1), start) && j == first - 4
  {
    hide Forward, Backward;
    r, j := start, first;
    if encrypt {
      ghost var steps := MixRounds(first, 1);
      for i := 0 to 4
        invariant j == first + i
        invariant ForwardAll(k, steps[i..], r) == ForwardAll(k, steps, start)
      {
        assert steps[i] == Mix(i, j) && steps[i..][1..] == steps[i + 1..];
        r, j := Forward(k, Mix(i, j), r), j + 1;
      }
    } else {
      ghost var steps := ReverseMixRounds(first, 1);
      for i := 4 downto 0
        invariant j == first - 4 + i
        invariant BackwardAll(k, steps[4 - i..], r) == BackwardAll(k, steps, start)
      {
        assert steps[3 - i] == Mix(i, j) && steps[3 - i..][1..] == steps[4 - i..];
        r, j := Backward(k, Mix(i, j), r), j - 1;
      }
    }
  }

  method MixTimes(k: Table, encrypt: bool, rounds: nat, start: Words, first: int) returns (r: Words, j: int)
    requires if encrypt then 0 <= first && first + 4 * rounds <= 64 else 4 * rounds <= first + 1 <= 64
    ensures encrypt ==> r == ForwardAll(k, MixRounds(first, rounds), start) && j == first + 4 * rounds
    ensures !encrypt ==> r == BackwardAll(k, ReverseMixRounds(first, rounds), start) && j == first - 4 * rounds
  {
    hide ForwardAll, BackwardAll, MixRounds, ReverseMixRounds;
    r, j := start, first;
    NothingMixed(k, start);
    for n := 0 to rounds
      invariant encrypt ==> r == ForwardAll(k, MixRounds(first, n), start) && j == first + 4 * n
      invariant !encrypt ==> r == BackwardAll(k, ReverseMixRounds(first, n), start) && j == first - 4 * n
    {
      if encrypt {
        MixRoundsThen(first, n);
        ForwardThen(k, MixRounds(first, n), MixRounds(j, 1), start);
      } else {
        ReverseMixRoundsThen(first, n);
        OneReverseRound(j);
        BackwardThen(k, ReverseMixRounds(first, n), ReverseMixRounds(j, 1), start);
      }
      r, j := MixWords(k, encrypt, r, j);
    }
  }

  lemma NothingMixed(k: Table, r: Words)
    ensures forall j: nat | j <= 64 :: MixRounds(j, 0) == []
    ensures forall j: int | -1 <= j < 64 :: ReverseMixRounds(j, 0) == []
    ensures ForwardAll(k, [], r) == r && BackwardAll(k, [], r) == r
  {
  }

  lemma OneReverseRound(j: int)
    requires 3 <= j < 64
    ensures ReverseMixRounds(j, 1) == ReverseMixRound(j)
  {
    assert ReverseMixRounds(j - 4, 0) == [];
  }

  lemma {:induction false} MixRoundsThen(j: nat, rounds: nat)
    requires j + 4 * (rounds + 1) <= 64
    ensures MixRounds(j, rounds + 1) == MixRounds(j, rounds) + MixRounds(j + 4 * rounds, 1)
    decreases rounds
  {
    FirstMixRound(j, rounds + 1);
    if rounds == 0 {
      assert MixRounds(j, 0) == [];
    } else {
      hide MixRound, MixRounds;
      FirstMixRound(j, rounds);
      MixRoundsThen(j + 4, rounds - 1);
      Associative(MixRound(j), MixRounds(j + 4, rounds - 1), MixRounds(j + 4 * rounds, 1));
    }
  }

  method MashForward(k: Table, start: Words) returns (r: Words)
    ensures r == ForwardAll(k, MashRound(), start)
  {
    hide Forward, ForwardAll;
    r := start;
    ghost var steps := MashRound();
    assert steps[0..] == steps && steps[4..] == [];
    for i := 0 to 4
      invariant ForwardAll(k, steps[i..], r) == ForwardAll(k, steps, start)
    {
      ForwardStep(k, steps, i, r);
      r := Forward(k, Mash(i), r);
    }
    NothingMixed(k, r);
  }

  lemma ReverseMashAt()
    ensures |ReverseMashRound()| == 4
    ensures forall i: Index :: ReverseMashRound()[3 - i] == Mash(i)
  {
  }

  method MashBackward(k: Table, start: Words) returns (r: Words)
    ensures r == BackwardAll(k, ReverseMashRound(), start)
  {
    hide Backward, BackwardAll, ReverseMashRound;
    r := start;
    ghost var steps := ReverseMashRound();
    ReverseMashAt();
    assert steps[0..] == steps && steps[4..] == [];
    for i := 4 downto 0
      invariant BackwardAll(k, steps[4 - i..], r) == BackwardAll(k, steps, start)
    {
      BackwardStep(k, steps, 3 - i, r);
      r := Backward(k, Mash(i), r);
    }
    NothingMixed(k, r);
  }

  method MashWords(k: Table, encrypt: bool, start: Words) returns (r: Words)
    ensures r == if encrypt then ForwardAll(k, MashRound(), start) else BackwardAll(k, ReverseMashRound(), start)
  {
    if encrypt {
      r := MashForward(k, start);
    } else {
      r := MashBackward(k, start);
    }
  }

  lemma ForwardStep(k: Table, steps: seq<Step>, i: nat, r: Words)
    requires i < |steps|
    ensures ForwardAll(k, steps[i..], r) == ForwardAll(k, steps[i + 1..], Forward(k, steps[i], r))
  {
    assert steps[i..][1..] == steps[i + 1..];
  }

  lemma BackwardStep(k: Table, steps: seq<Step>, i: nat, r: Words)
    requires i < |steps|
    ensures BackwardAll(k, steps[i..], r) == BackwardAll(k, steps[i + 1..], Backward(k, steps[i], r))
  {
    assert steps[i..][1..] == steps[i + 1..];
  }

  /** The rounds in the order of the source, with the running key counter. */
  method CipherBlock(k: Table, encrypt: bool, block: Block) returns (out: Block)
    ensures out == Cipher(k, encrypt, block)
  {
    hide WordsOf, BlockOf, ForwardAll, BackwardAll, MixRounds, ReverseMixRounds;
    var r, j := WordsOf(block), if encrypt then 0 else 63;
    EncryptionInParts(k, r);
    DecryptionInParts(k, r);
    r, j := MixTimes(k, encrypt, 5, r, j);
    r := MashWords(k, encrypt, r);
    r, j := MixTimes(k, encrypt, 6, r, j);
    r := MashWords(k, encrypt, r);
    r, j := MixTimes(k, encrypt, 5, r, j);
    out := BlockOf(r);
  }

  /** Each schedule runs part by part. */
  lemma EncryptionInParts(k: Table, r: Words)
    ensures CipherWords(k, true, r) ==
            ForwardAll(k, MixRounds(44, 5), ForwardAll(k, MashRound(), ForwardAll(k, MixRounds(20, 6),
            ForwardAll(k, MashRound(), ForwardAll(k, MixRounds(0, 5), r)))))
  {
    hide ForwardAll, BackwardAll, MixRounds, ReverseMixRounds;
    var a, m, b, c := MixRounds(0, 5), MashRound(), MixRounds(20, 6), MixRounds(44, 5);
    ForwardThen(k, a, m, r);
    ForwardThen(k, a + m, b, r);
    ForwardThen(k, a + m + b, m, r);
    ForwardThen(k, a + m + b + m, c, r);
  }

  lemma DecryptionInParts(k: Table, r: Words)
    ensures CipherWords(k, false, r) ==
            BackwardAll(k, ReverseMixRounds(19, 5),
            BackwardAll(k, ReverseMashRound(), BackwardAll(k, ReverseMixRounds(43, 6),
            BackwardAll(k, ReverseMashRound(), BackwardAll(k, ReverseMixRounds(63, 5), r)))))
  {
    hide ForwardAll, BackwardAll, MixRounds, ReverseMixRounds;
    var a, m, b, c := ReverseMixRounds(63, 5), ReverseMashRound(), ReverseMixRounds(43, 6), ReverseMixRounds(19, 5);
    BackwardThen(k, a, m, r);
    BackwardThen(k, a + m, b, r);
    BackwardThen(k, a + m + b, m, r);
    BackwardThen(k, a + m + b + m, c, r);
  }
}
