/**
How the calls of a session chain: where the next call starts, and that a DES or
RC2 session is one chain over all its messages.
*/
module KeySessions {
  import opened Wrappers
  import opened Bits
  import opened Bytes
  import opened BlockModes
  import opened KeyObject

  // ----- One call after another -----

  /** Every call of a block algorithm leaves the last eight bytes of its ciphertext, whether it answers or not. */
  lemma NextStart(p: Primitives, k: Key, data: seq<byte>)
    requires k.Usable() && k.Works() && k.IsBlock()
    ensures var sent := Encrypted(p, k, data);
            && sent.answer.Some? && |sent.answer.value| >= 8
            && sent.key == k.(iv := sent.answer.value[|sent.answer.value| - 8..])
    ensures |data| % k.BlockSize() == 0 && data != [] ==>
              |data| >= 8 && Decrypted(p, k, data).key == k.(iv := data[|data| - 8..])
  {
    hide Blocks, Pad, Unpad;
    EncryptsExactly(p, k, data);
    PaddedWhole(data, k.BlockSize());
    BlocksLength(p, k, true, Pad(data, k.BlockSize()));
    if |data| % k.BlockSize() == 0 && data != [] {
      Division.AtLeastOne(|data|, k.BlockSize());
    }
  }

  /** A call that does not reach the cipher leaves the key as it was. */
  lemma NothingMoves(p: Primitives, k: Key, data: seq<byte>)
    requires k.Usable()
    ensures !k.Works() || k.algorithm.Rc4Stream? ==> Encrypted(p, k, data).key == Decrypted(p, k, data).key == k
    ensures k.IsBlock() && (|data| % k.BlockSize() != 0 || data == []) ==>
              Decrypted(p, k, data) == Outcome(None, k)
  {
    hide Blocks, Unpad;
  }

  /** Call `i` runs on the key as it was, with the last eight bytes of the answer before it. */
  predicate Follows(p: Primitives, k: Key, before: Outcome, message: seq<byte>, call: Outcome)
    requires k.Usable()
  {
    && before.answer.Some? && |before.answer.value| >= 8
    && var sent := before.answer.value;
    call == Encrypted(p, k.(iv := sent[|sent| - 8..]), message)
  }

  lemma FirstCall(p: Primitives, k: Key, messages: seq<seq<byte>>)
    requires k.Usable() && messages != []
    ensures var first := Encrypted(p, k, messages[0]);
            EncryptAll(p, k, messages) == [first] + EncryptAll(p, first.key, messages[1..])
  {
    hide Encrypted;
  }

  /** A session's first call runs on its key, and every later one starts where the one before it ended. */
  lemma {:induction false} CallsChain(p: Primitives, k: Key, messages: seq<seq<byte>>, i: nat)
    requires k.Usable() && k.Works() && k.IsBlock() && i < |messages|
    ensures |EncryptAll(p, k, messages)| == |messages|
    ensures var calls := EncryptAll(p, k, messages);
            if i == 0 then calls[0] == Encrypted(p, k, messages[0])
            else Follows(p, k, calls[i - 1], messages[i], calls[i])
    decreases |messages|
  {
    hide Encrypted, EncryptAll, Follows;
    var first, rest := Encrypted(p, k, messages[0]), messages[1..];
    EveryMessageSent(p, k, messages);
    FirstCall(p, k, messages);
    NextStart(p, k, messages[0]);
    if i > 0 {
      CallsChain(p, first.key, rest, i - 1);
      if i == 1 {
        SecondFollows(p, k, messages[0], messages[1]);
      } else {
        SameKeyFollows(p, k, first.key.iv, EncryptAll(p, first.key, rest)[i - 2], messages[i],
                       EncryptAll(p, first.key, rest)[i - 1]);
      }
    }
  }

  lemma SecondFollows(p: Primitives, k: Key, first: seq<byte>, second: seq<byte>)
    requires k.Usable() && k.Works() && k.IsBlock()
    ensures var sent := Encrypted(p, k, first);
            sent.key.Usable() && Follows(p, k, sent, second, Encrypted(p, sent.key, second))
  {
    NextStart(p, k, first);
    hide Encrypted;
  }

  /** The vector of the key that a call is said of does not matter, only the answer before it. */
  lemma SameKeyFollows(p: Primitives, k: Key, iv: Iv, before: Outcome, message: seq<byte>, call: Outcome)
    requires k.Usable() && Follows(p, k.(iv := iv), before, message, call)
    ensures Follows(p, k, before, message, call)
  {
    hide Encrypted;
  }

  // ----- One chain -----

  /** Chaining over two runs of whole blocks is chaining over the first and going on from its last block. */
  lemma {:induction false} CbcConcat(p: Primitives, c: Cipher, iv: seq<byte>, a: seq<byte>, b: seq<byte>)
    requires |iv| == Size(c) && Whole(Size(c), a) && a != []
    ensures |Cbc(p, c, true, iv, a)| == |a| >= Size(c)
    ensures var out := Cbc(p, c, true, iv, a);
            Cbc(p, c, true, iv, a + b) == out + Cbc(p, c, true, out[|out| - Size(c)..], b)
    decreases |a|
  {
    hide Chained, Size, Cbc;
    SizePositive(c);
    var n := Size(c);
    var (x, next) := Chained(p, c, true, iv, a[..n]);
    assert next == x by { ChainIsOutput(p, c, iv, a[..n]); }
    var out := Cbc(p, c, true, iv, a);
    CbcLength(p, c, true, iv, a);
    FirstBlock(p, c, true, iv, a);
    FirstBlock(p, c, true, iv, a + b);
    assert (a + b)[..n] == a[..n] && (a + b)[n..] == a[n..] + b;
    if a[n..] == [] {
      assert Cbc(p, c, true, next, []) == [] by { NoBlock(p, c, true, next, []); }
      assert out == x + [] == x && a[n..] + b == b;
      assert out[|out| - n..] == x;
    } else {
      CbcConcat(p, c, next, a[n..], b);
      var rest := Cbc(p, c, true, next, a[n..]);
      assert out == x + rest && out[|out| - n..] == rest[|rest| - n..];
    }
  }

  lemma ChainIsOutput(p: Primitives, c: Cipher, iv: seq<byte>, block: seq<byte>)
    requires |iv| == |block| == Size(c)
    ensures Chained(p, c, true, iv, block).1 == Chained(p, c, true, iv, block).0
  {
    hide Through;
  }

  function Joined(parts: seq<seq<byte>>): seq<byte> {
    if parts == [] then [] else parts[0] + Joined(parts[1..])
  }

  function Padded(messages: seq<seq<byte>>): (r: seq<seq<byte>>)
    ensures |r| == |messages|
  {
    if messages == [] then [] else [Pad(messages[0], 8)] + Padded(messages[1..])
  }

  /** A key whose chaining state is a whole block of its cipher. */
  predicate Plain(k: Key) {
    k.Usable() && (k.algorithm.DesChained? || k.algorithm.Rc2Chained?)
  }

  function CipherOf(k: Key): Cipher
    requires Plain(k)
  {
    if k.algorithm.DesChained? then Des(k.material) else Rc2(k.material)
  }

  /**
  The answers of a DES or RC2 session, one after another, are the chaining of the
  padded messages, one after another, from the vector the session began with.
  */
  lemma {:induction false} SessionIsOneChain(p: Primitives, k: Key, messages: seq<seq<byte>>)
    requires Plain(k)
    ensures |EncryptAll(p, k, messages)| == |messages|
    ensures forall o | o in EncryptAll(p, k, messages) :: o.answer.Some?
    ensures Joined(Answers(EncryptAll(p, k, messages))) == Cbc(p, CipherOf(k), true, k.iv, Joined(Padded(messages)))
    decreases |messages|
  {
    hide Encrypted, Cbc, Pad;
    EveryMessageSent(p, k, messages);
    if messages == [] {
      NoBlock(p, CipherOf(k), true, k.iv, []);
    } else {
      var first, padded := Encrypted(p, k, messages[0]), Pad(messages[0], 8);
      NextStart(p, k, messages[0]);
      CallIsChain(p, k, messages[0]);
      PaddedWhole(messages[0], 8);
      CbcConcat(p, CipherOf(k), k.iv, padded, Joined(Padded(messages[1..])));
      SessionIsOneChain(p, first.key, messages[1..]);
      var sent, rest := EncryptAll(p, k, messages), EncryptAll(p, first.key, messages[1..]);
      assert sent[1..] == rest && Answers(sent)[1..] == Answers(rest) && Answers(sent)[0] == first.answer.value;
      assert Padded(messages)[0] == padded && Padded(messages)[1..] == Padded(messages[1..]);
    }
  }

  lemma CallIsBlocks(p: Primitives, k: Key, message: seq<byte>)
    requires k.Usable() && k.Works() && k.IsBlock()
    ensures Encrypted(p, k, message).answer == Some(Blocks(p, k, true, Pad(message, k.BlockSize())))
  {
    hide Blocks, Pad, Whole;
  }

  lemma BlocksAreChain(p: Primitives, k: Key, data: seq<byte>)
    requires Plain(k)
    ensures Blocks(p, k, true, data) == Cbc(p, CipherOf(k), true, k.iv, data)
  {
    hide Cbc;
  }

  lemma CallIsChain(p: Primitives, k: Key, message: seq<byte>)
    requires Plain(k)
    ensures Encrypted(p, k, message).answer == Some(Cbc(p, CipherOf(k), true, k.iv, Pad(message, 8)))
  {
    hide Cbc, Pad, Encrypted, Blocks;
    CallIsBlocks(p, k, message);
    BlocksAreChain(p, k, Pad(message, 8));
  }

  // ----- The vector of an AES call -----

  /** The first block of an AES call is chained from the eight kept bytes and eight zeros. */
  lemma AesStart(p: Primitives, k: Key, message: seq<byte>, start: AesBlock)
    requires k.IsAes() && k.Works()
    requires forall i | 0 <= i < 16 :: start[i] == if i < 8 then k.iv[i] else 0
    ensures var padded := Pad(message, 16);
            && |padded| >= 16 && Encrypted(p, k, message).answer.Some?
            && |Encrypted(p, k, message).answer.value| >= 16
            && Encrypted(p, k, message).answer.value[..16] == p.aes(k.material, true, Xor(padded[..16], start))
  {
    hide Pad, Cbc;
    var padded := Pad(message, 16);
    PaddedWhole(message, 16);
    BlocksLength(p, k, true, padded);
    assert Extended(k.iv) == start;
    FirstBlock(p, Aes(k.material), true, start, padded);
  }
}
