/**
CryptoAPI key objects: padding (section 6.3 of RFC 5652), the chaining state
that each call moves on, and whole encrypt and decrypt sessions.
*/
module KeyObject {
  import opened Wrappers
  import opened BlockModes
  import opened Bytes
  import opened Division
  import Rc4

  // ----- Padding -----

  function PaddingLength(length: nat, n: nat): (r: nat)
    requires n > 0
    ensures 1 <= r <= n
  {
    var remainder := length % n;
    if remainder == 0 then n else n - remainder
  }

  function Filler(count: nat): (r: seq<byte>)
    requires count < 256
    ensures |r| == count && forall i | 0 <= i < count :: r[i] == count
  {
    seq(count, i => count)
  }

  function Pad(data: seq<byte>, n: nat): (r: seq<byte>)
    requires 0 < n < 256
    ensures |r| == |data| + PaddingLength(|data|, n)
  {
    data + Filler(PaddingLength(|data|, n))
  }

  function Unpad(data: seq<byte>, n: nat): Option<seq<byte>> {
    if data == [] then None
    else
      var pad := data[|data| - 1];
      if pad == 0 || pad > n || pad > |data| then None
      else if exists i | |data| - pad <= i < |data| :: data[i] != pad then None
      else Some(data[..|data| - pad])
  }

  lemma PaddingUnique(length: nat, pad: nat, n: nat)
    requires 1 <= pad <= n && (length + pad) % n == 0
    ensures PaddingLength(length, n) == pad
  {
    var q := (length + pad) / n;
    assert q * n == length + pad;
    if pad == n {
      assert length == (q - 1) * n;
      Divided(q - 1, n, 0);
    } else {
      assert length == (q - 1) * n + (n - pad);
      assert q > 0;
      Divided(q - 1, n, n - pad);
    }
  }

  lemma PaddingFills(length: nat, n: nat)
    requires n > 0
    ensures (length + PaddingLength(length, n)) % n == 0
  {
    var q := length / n;
    assert length == q * n + length % n;
    assert length + PaddingLength(length, n) == (q + 1) * n;
    Divided(q + 1, n, 0);
  }

  lemma UnpadOfPad(data: seq<byte>, n: nat)
    requires 0 < n < 256
    ensures Unpad(Pad(data, n), n) == Some(data)
  {
    hide PaddingLength, Filler;
    var k := PaddingLength(|data|, n);
    assert Pad(data, n)[..|data|] == data;
  }

  lemma PadOfUnpad(data: seq<byte>, n: nat)
    requires 0 < n < 256 && |data| % n == 0 && Unpad(data, n).Some?
    ensures Pad(Unpad(data, n).value, n) == data
  {
    hide PaddingLength, Filler;
    var pad := data[|data| - 1];
    PaddingUnique(|data| - pad, pad, n);
    assert data == data[..|data| - pad] + data[|data| - pad..];
    assert data[|data| - pad..] == Filler(pad);
  }

  /** Among whole blocks, exactly the padded messages are accepted, each as its own message. */
  lemma UnpadExactly(data: seq<byte>, message: seq<byte>, n: nat)
    requires 0 < n < 256 && |data| % n == 0
    ensures Unpad(data, n) == Some(message) <==> data == Pad(message, n)
  {
    hide Pad, Unpad;
    UnpadOfPad(message, n);
    if Unpad(data, n) == Some(message) {
      PadOfUnpad(data, n);
    }
  }

  // ----- One call -----

  datatype Algorithm = Rc4Stream | Rc2Chained | DesChained | TripleDes | Aes128 | Aes256 | Unsupported

  type Iv = s: seq<byte> | |s| == 8 witness seq(8, i => 0)

  datatype Key = Key(algorithm: Algorithm, material: seq<byte>, iv: Iv) {
    /** Shorter material makes the source slice out of range. */
    predicate Usable() {
      && (algorithm.TripleDes? ==> TripleKeyed(material))
      && (algorithm.Rc2Chained? ==> material != [])
    }

    predicate IsAes() {
      algorithm.Aes128? || algorithm.Aes256?
    }

    predicate IsBlock() {
      !algorithm.Rc4Stream? && !algorithm.Unsupported?
    }

    function BlockSize(): nat {
      if IsAes() then 16 else 8
    }

    /** The AES length check looks at the material, not at the algorithm. */
    predicate Works() {
      !algorithm.Unsupported? && (IsAes() ==> |material| == 16 || |material| == 32)
    }
  }

  /** The eight kept bytes followed by eight zeros. */
  function Extended(iv: Iv): AesBlock {
    iv + [0, 0, 0, 0, 0, 0, 0, 0]
  }

  function Blocks(p: Primitives, k: Key, encrypt: bool, data: seq<byte>): seq<byte>
    requires k.Usable() && k.IsBlock()
  {
    if k.IsAes() then Cbc(p, Aes(k.material), encrypt, Extended(k.iv), data)
    else if k.algorithm.TripleDes? then Triple(p, k.material, encrypt, k.iv, data)
    else if k.algorithm.DesChained? then Cbc(p, Des(k.material), encrypt, k.iv, data)
    else Cbc(p, Rc2(k.material), encrypt, k.iv, data)
  }

  lemma BlocksLength(p: Primitives, k: Key, encrypt: bool, data: seq<byte>)
    requires k.Usable() && k.IsBlock() && Whole(k.BlockSize(), data)
    ensures |Blocks(p, k, encrypt, data)| == |data|
  {
    hide Cbc, Triple, Whole;
    if k.IsAes() {
      CbcLength(p, Aes(k.material), encrypt, Extended(k.iv), data);
    } else if k.algorithm.TripleDes? {
      TripleLength(p, k.material, encrypt, k.iv, data);
    } else if k.algorithm.DesChained? {
      CbcLength(p, Des(k.material), encrypt, k.iv, data);
    } else {
      CbcLength(p, Rc2(k.material), encrypt, k.iv, data);
    }
  }

  /** Either direction of every block algorithm undoes the other from the same chaining state. */
  lemma BlocksUndone(p: Primitives, k: Key, encrypt: bool, data: seq<byte>)
    requires (k.IsAes() ==> AesInverts(p)) && k.Usable() && k.IsBlock() && k.Works() && Whole(k.BlockSize(), data)
    ensures Blocks(p, k, !encrypt, Blocks(p, k, encrypt, data)) == data
  {
    hide AesInverts, Cbc, Triple, Whole;
    if k.IsAes() {
      CbcUndone(p, Aes(k.material), encrypt, Extended(k.iv), data);
    } else if k.algorithm.TripleDes? {
      TripleUndone(p, k.material, encrypt, k.iv, data);
    } else if k.algorithm.DesChained? {
      CbcUndone(p, Des(k.material), encrypt, k.iv, data);
    } else {
      CbcUndone(p, Rc2(k.material), encrypt, k.iv, data);
    }
  }

  function Last8(data: seq<byte>): Iv
    requires |data| >= 8
  {
    data[|data| - 8..]
  }

  /** What a call answers and the key it leaves. */
  datatype Outcome = Outcome(answer: Option<seq<byte>>, key: Key)

  lemma PaddedWhole(data: seq<byte>, n: nat)
    requires 0 < n < 256
    ensures |Pad(data, n)| % n == 0 && Whole(n, Pad(data, n)) && |Pad(data, n)| >= n
  {
    PaddingFills(|data|, n);
    WholeExactly(n, Pad(data, n));
    hide Pad, Whole;
    var k := PaddingLength(|data|, n);
    assert |data| + k >= n by {
      hide PaddingLength;
      AtLeastOne(|data| + k, n);
    }
  }

  function Encrypted(p: Primitives, k: Key, data: seq<byte>): Outcome
    requires k.Usable()
  {
    if !k.Works() then Outcome(None, k)
    else if k.algorithm.Rc4Stream? then Outcome(Some(Rc4.Cipher(k.material, data)), k)
    else
      PaddedWhole(data, k.BlockSize());
      BlocksLength(p, k, true, Pad(data, k.BlockSize()));
      var out := Blocks(p, k, true, Pad(data, k.BlockSize()));
      Outcome(Some(out), k.(iv := Last8(out)))
  }

  predicate FullBlocks(k: Key, data: seq<byte>) {
    |data| % k.BlockSize() == 0 && data != []
  }

  /** The chaining state moves on even when the padding is then refused. */
  function Decrypted(p: Primitives, k: Key, data: seq<byte>): Outcome
    requires k.Usable()
  {
    if !k.Works() then Outcome(None, k)
    else if k.algorithm.Rc4Stream? then Outcome(Some(Rc4.Cipher(k.material, data)), k)
    else if !FullBlocks(k, data) then Outcome(None, k)
    else Outcome(Unpad(Blocks(p, k, false, data), k.BlockSize()), k.(iv := Last8(data)))
  }

  // ----- One message -----

  /** A call answers exactly for a supported algorithm with material of a supported length. */
  lemma EncryptsExactly(p: Primitives, k: Key, data: seq<byte>)
    requires k.Usable()
    ensures Encrypted(p, k, data).answer.Some? <==> k.Works()
    ensures k.Works() <==>
            match k.algorithm
            case Unsupported => false
            case Aes128 => |k.material| == 16 || |k.material| == 32
            case Aes256 => |k.material| == 16 || |k.material| == 32
            case _ => true
    ensures k.Works() && k.IsBlock() ==>
              |Encrypted(p, k, data).answer.value| == |data| + PaddingLength(|data|, k.BlockSize())
  {
    if k.Works() && k.IsBlock() {
      hide Blocks, Pad, PaddingLength;
      PaddedWhole(data, k.BlockSize());
      BlocksLength(p, k, true, Pad(data, k.BlockSize()));
    }
  }

  /**
  Decryption answers a message exactly when encryption of that message answers the
  ciphertext, with equal keys left.
  */
  lemma DecryptsExactly(p: Primitives, k: Key, message: seq<byte>, ciphertext: seq<byte>)
    requires (k.IsAes() ==> AesInverts(p)) && k.Usable()
    ensures Decrypted(p, k, ciphertext).answer == Some(message) <==>
            Encrypted(p, k, message).answer == Some(ciphertext)
    ensures Encrypted(p, k, message).answer == Some(ciphertext) ==>
              Decrypted(p, k, ciphertext).key == Encrypted(p, k, message).key
  {
    hide AesInverts, Rc4.Cipher, Blocks, Pad, Unpad;
    if k.algorithm.Rc4Stream? {
      Rc4.CipherUndone(k.material, message);
      Rc4.CipherUndone(k.material, ciphertext);
    } else if k.Works() {
      var n := k.BlockSize();
      PaddedWhole(message, n);
      BlocksLength(p, k, true, Pad(message, n));
      if FullBlocks(k, ciphertext) {
        WholeExactly(n, ciphertext);
        BlocksMatch(p, k, message, ciphertext);
      }
    }
  }

  lemma BlocksMatch(p: Primitives, k: Key, message: seq<byte>, ciphertext: seq<byte>)
    requires (k.IsAes() ==> AesInverts(p)) && k.Usable() && k.Works() && k.IsBlock() && Whole(k.BlockSize(), ciphertext)
    ensures Unpad(Blocks(p, k, false, ciphertext), k.BlockSize()) == Some(message) <==>
            Blocks(p, k, true, Pad(message, k.BlockSize())) == ciphertext
  {
    hide AesInverts, Blocks, Pad, Unpad;
    var n := k.BlockSize();
    var plain := Blocks(p, k, false, ciphertext);
    PaddedWhole(message, n);
    BlocksUndone(p, k, true, Pad(message, n));
    BlocksUndone(p, k, false, ciphertext);
    BlocksLength(p, k, false, ciphertext);
    WholeExactly(n, ciphertext);
    UnpadExactly(plain, message, n);
  }

  // ----- Sessions -----

  /** The calls of a session in turn, each on the key that the one before it left. */
  function EncryptAll(p: Primitives, k: Key, messages: seq<seq<byte>>): seq<Outcome>
    requires k.Usable()
    decreases |messages|
  {
    if messages == [] then []
    else
      var first := Encrypted(p, k, messages[0]);
      [first] + EncryptAll(p, first.key, messages[1..])
  }

  function DecryptAll(p: Primitives, k: Key, ciphertexts: seq<seq<byte>>): seq<Outcome>
    requires k.Usable()
    decreases |ciphertexts|
  {
    if ciphertexts == [] then []
    else
      var first := Decrypted(p, k, ciphertexts[0]);
      [first] + DecryptAll(p, first.key, ciphertexts[1..])
  }

  function Answers(outcomes: seq<Outcome>): (r: seq<seq<byte>>)
    requires forall o | o in outcomes :: o.answer.Some?
    ensures |r| == |outcomes| && forall i | 0 <= i < |r| :: outcomes[i].answer == Some(r[i])
  {
    if outcomes == [] then [] else [outcomes[0].answer.value] + Answers(outcomes[1..])
  }

  /** Each message answered, with the key that the encrypt session left after it. */
  function ReadBack(messages: seq<seq<byte>>, sent: seq<Outcome>): (r: seq<Outcome>)
    requires |messages| == |sent|
    ensures |r| == |sent| && forall i | 0 <= i < |r| :: r[i] == Outcome(Some(messages[i]), sent[i].key)
  {
    if messages == [] then [] else [Outcome(Some(messages[0]), sent[0].key)] + ReadBack(messages[1..], sent[1..])
  }

  lemma {:induction false} EveryMessageSent(p: Primitives, k: Key, messages: seq<seq<byte>>)
    requires k.Usable() && k.Works()
    ensures |EncryptAll(p, k, messages)| == |messages|
    ensures forall o | o in EncryptAll(p, k, messages) :: o.answer.Some?
    decreases |messages|
  {
    hide Encrypted;
    if messages != [] {
      EncryptsExactly(p, k, messages[0]);
      KeyKept(p, k, messages[0]);
      EveryMessageSent(p, Encrypted(p, k, messages[0]).key, messages[1..]);
    }
  }

  /** A call changes nothing of a key but its chaining state. */
  lemma KeyKept(p: Primitives, k: Key, data: seq<byte>)
    requires k.Usable()
    ensures Encrypted(p, k, data).key.(iv := k.iv) == k && Decrypted(p, k, data).key.(iv := k.iv) == k
    ensures Encrypted(p, k, data).key.Works() == k.Works()
  {
    hide Blocks, Unpad;
  }

  /**
  Decrypting the answers of an encrypt session, from an equal key, answers every
  message in turn and leaves after each one the key that encryption left.
  */
  lemma {:induction false} SessionReadBack(p: Primitives, k: Key, messages: seq<seq<byte>>)
    requires (k.IsAes() ==> AesInverts(p)) && k.Usable() && k.Works()
    ensures |EncryptAll(p, k, messages)| == |messages|
    ensures forall o | o in EncryptAll(p, k, messages) :: o.answer.Some?
    ensures DecryptAll(p, k, Answers(EncryptAll(p, k, messages))) == ReadBack(messages, EncryptAll(p, k, messages))
    decreases |messages|
  {
    hide AesInverts, Encrypted, Decrypted;
    EveryMessageSent(p, k, messages);
    if messages != [] {
      var first := Encrypted(p, k, messages[0]);
      KeyKept(p, k, messages[0]);
      var sent, rest := EncryptAll(p, k, messages), EncryptAll(p, first.key, messages[1..]);
      EncryptsExactly(p, k, messages[0]);
      DecryptsExactly(p, k, messages[0], first.answer.value);
      SessionReadBack(p, first.key, messages[1..]);
      assert sent[1..] == rest && Answers(sent)[1..] == Answers(rest);
    }
  }

  // ----- The key object -----

  class CryptKey {
    const algorithm: Algorithm
    const material: seq<byte>
    var iv: Iv

    function Contents(): Key
      reads this
    {
      Key(algorithm, material, iv)
    }

    constructor (algorithm: Algorithm, material: seq<byte>)
      ensures Contents() == Key(algorithm, material, seq(8, i => 0))
    {
      this.algorithm, this.material, iv := algorithm, material, seq(8, i => 0);
    }

    method RunBlocks(p: Primitives, encrypt: bool, data: seq<byte>) returns (out: seq<byte>)
      requires Contents().Usable() && Contents().IsBlock()
      ensures out == Blocks(p, Contents(), encrypt, data)
    {
      hide Cbc;
      match algorithm {
        case Aes128 => out := RunCbc(p, Aes(material), encrypt, Extended(iv), data);
        case Aes256 => out := RunCbc(p, Aes(material), encrypt, Extended(iv), data);
        case TripleDes => out := RunTriple(p, material, encrypt, iv, data);
        case DesChained => out := RunCbc(p, Des(material), encrypt, iv, data);
        case Rc2Chained => out := RunCbc(p, Rc2(material), encrypt, iv, data);
      }
    }

    method Encrypt(p: Primitives, data: seq<byte>) returns (answer: Option<seq<byte>>)
      requires Contents().Usable()
      modifies this
      ensures Outcome(answer, Contents()) == Encrypted(p, old(Contents()), data)
    {
      hide Blocks, Pad;
      if !Contents().Works() {
        return None;
      }
      if algorithm.Rc4Stream? {
        var out := Rc4.Run(material, data);
        return Some(out);
      }
      var n := if algorithm.Aes128? || algorithm.Aes256? then 16 else 8;
      var out := RunBlocks(p, true, Pad(data, n));
      PaddedWhole(data, n);
      BlocksLength(p, Contents(), true, Pad(data, n));
      iv := Last8(out);
      return Some(out);
    }

    method Decrypt(p: Primitives, data: seq<byte>) returns (answer: Option<seq<byte>>)
      requires Contents().Usable()
      modifies this
      ensures Outcome(answer, Contents()) == Decrypted(p, old(Contents()), data)
    {
      hide Blocks, Unpad;
      if !Contents().Works() {
        return None;
      }
      if algorithm.Rc4Stream? {
        var out := Rc4.Run(material, data);
        return Some(out);
      }
      var n := if algorithm.Aes128? || algorithm.Aes256? then 16 else 8;
      if |data| % n != 0 || data == [] {
        return None;
      }
      var plain := RunBlocks(p, false, data);
      iv := Last8(data);
      answer := Unpad(plain, n);
    }
  }
}
