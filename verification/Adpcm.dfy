/**
The two ADPCM decoders over whole buffers: blocks, interleaved frames, and the
nested loops of the source against a channel-by-channel reference.
*/
module Adpcm {
  import opened Bytes
  import opened AdpcmSteps

  /** The two formats; each block starts with 2 or 1 uncompressed samples a channel. */
  datatype Format = MsAdpcm | ImaAdpcm

  function Initial(f: Format): nat {
    if f.MsAdpcm? then 2 else 1
  }

  /** The smallest block that is decoded: Microsoft blocks need a nibble a channel. */
  function Smallest(f: Format): nat {
    if f.MsAdpcm? then 3 else 1
  }

  function HeaderSize(f: Format, channels: nat): nat {
    if f.MsAdpcm? then 7 * channels else 4 * channels
  }

  function BlockSize(f: Format, channels: nat, perBlock: nat): nat
    requires perBlock >= Smallest(f)
  {
    HeaderSize(f, channels) + (Nibbles(f, channels, perBlock) + 1) / 2
  }

  function Nibbles(f: Format, channels: nat, perBlock: nat): nat
    requires perBlock >= Smallest(f)
  {
    (perBlock - Initial(f)) * channels
  }

  // ----- The reference -----

  /** Sample `p` of one channel of a block, by that channel's own header and nibbles. */
  function Sample(f: Format, block: seq<byte>, channels: nat, ch: nat, p: nat): i16 {
    match f
    case MsAdpcm => if p == 0 then MsStart(block, channels, ch).s2 else MsAt(block, channels, ch, p - 1).s1
    case ImaAdpcm => ImaAt(block, channels, ch, p).sample
  }

  /** One sample of each of the first channels. */
  function Frame(f: Format, block: seq<byte>, channels: nat, p: nat, count: nat): (r: seq<i16>)
    ensures |r| == count
    ensures forall ch | 0 <= ch < count :: r[ch] == Sample(f, block, channels, ch, p)
  {
    seq(count, ch requires 0 <= ch < count => Sample(f, block, channels, ch, p))
  }

  function Frames(f: Format, block: seq<byte>, channels: nat, count: nat): (r: seq<i16>)
    ensures |r| == count * channels
  {
    if count == 0 then [] else Frames(f, block, channels, count - 1) + Frame(f, block, channels, count - 1, channels)
  }

  predicate Decodable(f: Format, channels: nat, perBlock: nat) {
    channels > 0 && perBlock >= Smallest(f)
  }

  /** Block `b` alone: no byte outside it matters. */
  function BlockOf(data: seq<byte>, size: nat, b: nat): seq<byte> {
    if b * size + size <= |data| then data[b * size..b * size + size] else []
  }

  function Blocks(f: Format, data: seq<byte>, size: nat, channels: nat, perBlock: nat, count: nat): (r: seq<i16>)
    requires count * size <= |data|
    ensures |r| == count * (perBlock * channels)
  {
    if count == 0 then []
    else
      assert count * size == (count - 1) * size + size;
      Blocks(f, data, size, channels, perBlock, count - 1) +
      Frames(f, BlockOf(data, size, count - 1), channels, perBlock)
  }

  lemma SizePositive(f: Format, channels: nat, perBlock: nat)
    requires Decodable(f, channels, perBlock)
    ensures BlockSize(f, channels, perBlock) > 0
  {
  }

  function WholeBlocks(length: nat, size: nat): (r: nat)
    requires size > 0
    ensures r * size <= length
  {
    length / size
  }

  /** Zero channels, a too small block or no whole block decode to nothing; a partial last block is dropped. */
  function Decoded(f: Format, data: seq<byte>, channels: nat, perBlock: nat): seq<i16> {
    if !Decodable(f, channels, perBlock) then []
    else
      var size := BlockSize(f, channels, perBlock);
      SizePositive(f, channels, perBlock);
      Blocks(f, data, size, channels, perBlock, WholeBlocks(|data|, size))
  }

  // ----- Shape and independence -----

  /** As many samples as whole blocks times samples a block times channels. */
  lemma DecodedLength(f: Format, data: seq<byte>, channels: nat, perBlock: nat)
    requires Decodable(f, channels, perBlock)
    ensures BlockSize(f, channels, perBlock) > 0
    ensures |Decoded(f, data, channels, perBlock)| ==
            WholeBlocks(|data|, BlockSize(f, channels, perBlock)) * (perBlock * channels)
  {
    hide BlockSize, Blocks, WholeBlocks;
    SizePositive(f, channels, perBlock);
  }

  lemma {:induction false} FrameAt(f: Format, block: seq<byte>, channels: nat, count: nat, p: nat, ch: nat)
    requires p < count && ch < channels
    ensures p * channels + ch < count * channels
    ensures Frames(f, block, channels, count)[p * channels + ch] == Sample(f, block, channels, ch, p)
    decreases count
  {
    hide Sample;
    Inside(p, count, channels, ch);
    if p < count - 1 {
      Inside(p, count - 1, channels, ch);
      FrameAt(f, block, channels, count - 1, p, ch);
    }
  }

  lemma Inside(a: nat, b: nat, size: nat, rest: nat)
    requires a < b && rest < size
    ensures a * size + rest < b * size
  {
    assert (b - a - 1) * size >= 0;
    assert b * size == a * size + size + (b - a - 1) * size;
  }

  lemma {:induction false} BlockAt(f: Format, data: seq<byte>, size: nat, channels: nat, perBlock: nat, count: nat,
                                   b: nat, k: nat)
    requires count * size <= |data| && b < count && k < perBlock * channels
    ensures b * size + size <= |data| && b * (perBlock * channels) + k < count * (perBlock * channels)
    ensures Blocks(f, data, size, channels, perBlock, count)[b * (perBlock * channels) + k] ==
            Frames(f, BlockOf(data, size, b), channels, perBlock)[k]
    decreases count
  {
    hide Frames;
    var width := perBlock * channels;
    Inside(b, count, width, k);
    assert count * size == (count - 1) * size + size;
    if b < count - 1 {
      Inside(b, count - 1, width, k);
      BlockAt(f, data, size, channels, perBlock, count - 1, b, k);
    }
  }

  predicate Holds(pcm: seq<i16>, at: int, sample: i16) {
    0 <= at < |pcm| && pcm[at] == sample
  }

  /** Every output sample is its own channel's sample of its own block: channels and blocks do not mix. */
  lemma DecodedSample(f: Format, data: seq<byte>, channels: nat, perBlock: nat, b: nat, p: nat, ch: nat)
    requires Decodable(f, channels, perBlock)
    requires b * BlockSize(f, channels, perBlock) + BlockSize(f, channels, perBlock) <= |data|
    requires p < perBlock && ch < channels
    ensures Holds(Decoded(f, data, channels, perBlock), b * (perBlock * channels) + (p * channels + ch),
                  Sample(f, BlockOf(data, BlockSize(f, channels, perBlock), b), channels, ch, p))
  {
    hide Blocks, Sample, BlockSize, BlockOf, Holds;
    SizePositive(f, channels, perBlock);
    var size := BlockSize(f, channels, perBlock);
    BlockCounted(|data|, size, b);
    hide WholeBlocks;
    BlockSample(f, data, size, channels, perBlock, WholeBlocks(|data|, size), b, p, ch);
  }

  lemma BlockSample(f: Format, data: seq<byte>, size: nat, channels: nat, perBlock: nat, count: nat, b: nat, p: nat,
                    ch: nat)
    requires count * size <= |data| && b < count && p < perBlock && ch < channels
    ensures Holds(Blocks(f, data, size, channels, perBlock, count), b * (perBlock * channels) + (p * channels + ch),
                  Sample(f, BlockOf(data, size, b), channels, ch, p))
  {
    hide Blocks, Frames, Sample, BlockOf;
    Inside(p, perBlock, channels, ch);
    BlockAt(f, data, size, channels, perBlock, count, b, p * channels + ch);
    FrameAt(f, BlockOf(data, size, b), channels, perBlock, p, ch);
  }

  lemma BlockCounted(length: nat, size: nat, b: nat)
    requires size > 0 && b * size + size <= length
    ensures b < WholeBlocks(length, size)
  {
    var q := length / size;
    assert length == q * size + length % size;
    assert q <= b ==> (b - q) * size >= 0;
  }

  /** The byte of every nibble is inside its block, so the zero-fill fallback is dead. */
  lemma NibbleInside(f: Format, channels: nat, perBlock: nat, sample: nat, ch: nat)
    requires Decodable(f, channels, perBlock) && sample < perBlock - Initial(f) && ch < channels
    ensures HeaderSize(f, channels) + Position(sample, channels, ch) / 2 < BlockSize(f, channels, perBlock)
  {
    Inside(sample, perBlock - Initial(f), channels, ch);
  }

  // ----- The loops of the source -----

  method DecodeMsBlock(block: seq<byte>, channels: nat, perBlock: nat) returns (pcm: seq<i16>)
    requires Decodable(MsAdpcm, channels, perBlock) && |block| == BlockSize(MsAdpcm, channels, perBlock)
    ensures pcm == Frames(MsAdpcm, block, channels, perBlock)
  {
    hide MsStart, MsStep, NibbleAt, BlockSize, HeaderSize;
    var states := seq(channels, ch requires 0 <= ch < channels => MsStart(block, channels, ch));
    pcm := [];
    for ch := 0 to channels
      invariant pcm == Frame(MsAdpcm, block, channels, 0, ch)
    {
      pcm := pcm + [states[ch].s2];
    }
    ghost var first := pcm;
    for ch := 0 to channels
      invariant pcm == first + Frame(MsAdpcm, block, channels, 1, ch)
    {
      pcm := pcm + [states[ch].s1];
    }
    TwoFrames(block, channels);
    for sample := 0 to perBlock - 2
      invariant |states| == channels
      invariant forall c | 0 <= c < channels :: states[c] == MsAt(block, channels, c, sample)
      invariant pcm == Frames(MsAdpcm, block, channels, sample + 2)
    {
      var frame: seq<i16>;
      frame, states := DecodeMsFrame(block, channels, perBlock, sample, states);
      pcm := pcm + frame;
    }
  }

  lemma TwoFrames(block: seq<byte>, channels: nat)
    ensures Frames(MsAdpcm, block, channels, 2) ==
            Frame(MsAdpcm, block, channels, 0, channels) + Frame(MsAdpcm, block, channels, 1, channels)
  {
    hide Frame;
    assert Frames(MsAdpcm, block, channels, 0) == [];
    assert Frames(MsAdpcm, block, channels, 1) == [] + Frame(MsAdpcm, block, channels, 0, channels);
  }

  lemma MsNext(block: seq<byte>, channels: nat, ch: nat, sample: nat)
    ensures MsAt(block, channels, ch, sample + 1) ==
            MsStep(MsAt(block, channels, ch, sample),
                   NibbleAt(block, HeaderSize(MsAdpcm, channels), Position(sample, channels, ch)))
    ensures Sample(MsAdpcm, block, channels, ch, sample + 2) == MsAt(block, channels, ch, sample + 1).s1
  {
    hide MsStart, MsStep, NibbleAt, Position;
  }

  lemma ImaNext(block: seq<byte>, channels: nat, ch: nat, sample: nat)
    ensures var s := ImaAt(block, channels, ch, sample);
            ImaAt(block, channels, ch, sample + 1) ==
            ImaStep(s, StepFor(s.index),
                    NibbleAt(block, HeaderSize(ImaAdpcm, channels), Position(sample, channels, ch)))
    ensures Sample(ImaAdpcm, block, channels, ch, sample + 1) == ImaAt(block, channels, ch, sample + 1).sample
  {
    hide ImaStart, ImaStep, NibbleAt, Position, StepFor;
  }

  /** One nibble for each channel in turn. */
  method DecodeMsFrame(block: seq<byte>, channels: nat, perBlock: nat, sample: nat, before: seq<Ms>)
    returns (frame: seq<i16>, states: seq<Ms>)
    requires Decodable(MsAdpcm, channels, perBlock) && |block| == BlockSize(MsAdpcm, channels, perBlock)
    requires sample < perBlock - 2 && |before| == channels
    requires forall c | 0 <= c < channels :: before[c] == MsAt(block, channels, c, sample)
    ensures |states| == channels && forall c | 0 <= c < channels :: states[c] == MsAt(block, channels, c, sample + 1)
    ensures frame == Frame(MsAdpcm, block, channels, sample + 2, channels)
  {
    hide MsAt, MsStep, BlockSize, HeaderSize, Decodable, Sample;
    frame, states := [], before;
    for ch := 0 to channels
      invariant |states| == channels
      invariant forall c | 0 <= c < channels ::
                  states[c] == MsAt(block, channels, c, if c < ch then sample + 1 else sample)
      invariant frame == Frame(MsAdpcm, block, channels, sample + 2, ch)
    {
      var nibble := ReadNibble(MsAdpcm, block, channels, perBlock, sample, ch);
      MsNext(block, channels, ch, sample);
      states := states[ch := MsStep(states[ch], nibble)];
      frame := frame + [states[ch].s1];
    }
  }

  /** The byte is always there: the source's fallback for a missing byte is never taken. */
  method ReadNibble(f: Format, block: seq<byte>, channels: nat, perBlock: nat, sample: nat, ch: nat) returns (n: Nibble)
    requires Decodable(f, channels, perBlock) && |block| == BlockSize(f, channels, perBlock)
    requires sample < perBlock - Initial(f) && ch < channels
    ensures n == NibbleAt(block, HeaderSize(f, channels), Position(sample, channels, ch))
  {
    NibbleInside(f, channels, perBlock, sample, ch);
    var index := sample * channels + ch;
    var byte := block[HeaderSize(f, channels) + index / 2];
    n := if index % 2 == 0 then byte / 16 else byte % 16;
  }

  method DecodeImaBlock(block: seq<byte>, channels: nat, perBlock: nat) returns (pcm: seq<i16>)
    requires Decodable(ImaAdpcm, channels, perBlock) && |block| == BlockSize(ImaAdpcm, channels, perBlock)
    ensures pcm == Frames(ImaAdpcm, block, channels, perBlock)
  {
    hide ImaStart, ImaStep, NibbleAt, BlockSize, HeaderSize;
    var states: seq<Ima> := [];
    pcm := [];
    for ch := 0 to channels
      invariant |states| == ch && forall c | 0 <= c < ch :: states[c] == ImaAt(block, channels, c, 0)
      invariant pcm == Frame(ImaAdpcm, block, channels, 0, ch)
    {
      states := states + [ImaStart(block, ch)];
      pcm := pcm + [states[ch].sample];
    }
    assert pcm == Frames(ImaAdpcm, block, channels, 1) by { OneFrame(block, channels); }
    for sample := 0 to perBlock - 1
      invariant |states| == channels
      invariant forall c | 0 <= c < channels :: states[c] == ImaAt(block, channels, c, sample)
      invariant pcm == Frames(ImaAdpcm, block, channels, sample + 1)
    {
      var frame: seq<i16>;
      frame, states := DecodeImaFrame(block, channels, perBlock, sample, states);
      pcm := pcm + frame;
    }
  }

  lemma OneFrame(block: seq<byte>, channels: nat)
    ensures Frames(ImaAdpcm, block, channels, 1) == Frame(ImaAdpcm, block, channels, 0, channels)
  {
    hide Frame;
    assert Frames(ImaAdpcm, block, channels, 0) == [];
  }

  method DecodeImaFrame(block: seq<byte>, channels: nat, perBlock: nat, sample: nat, before: seq<Ima>)
    returns (frame: seq<i16>, states: seq<Ima>)
    requires Decodable(ImaAdpcm, channels, perBlock) && |block| == BlockSize(ImaAdpcm, channels, perBlock)
    requires sample < perBlock - 1 && |before| == channels
    requires forall c | 0 <= c < channels :: before[c] == ImaAt(block, channels, c, sample)
    ensures |states| == channels && forall c | 0 <= c < channels :: states[c] == ImaAt(block, channels, c, sample + 1)
    ensures frame == Frame(ImaAdpcm, block, channels, sample + 1, channels)
  {
    hide ImaAt, ImaStep, BlockSize, HeaderSize, Decodable, StepFor, Sample;
    frame, states := [], before;
    for ch := 0 to channels
      invariant |states| == channels
      invariant forall c | 0 <= c < channels ::
                  states[c] == ImaAt(block, channels, c, if c < ch then sample + 1 else sample)
      invariant frame == Frame(ImaAdpcm, block, channels, sample + 1, ch)
    {
      var nibble := ReadNibble(ImaAdpcm, block, channels, perBlock, sample, ch);
      ImaNext(block, channels, ch, sample);
      states := states[ch := ImaStep(states[ch], StepFor(states[ch].index), nibble)];
      frame := frame + [states[ch].sample];
    }
  }

  method DecodeBlock(f: Format, block: seq<byte>, channels: nat, perBlock: nat) returns (pcm: seq<i16>)
    requires Decodable(f, channels, perBlock) && |block| == BlockSize(f, channels, perBlock)
    ensures pcm == Frames(f, block, channels, perBlock)
  {
    if f.MsAdpcm? {
      pcm := DecodeMsBlock(block, channels, perBlock);
    } else {
      pcm := DecodeImaBlock(block, channels, perBlock);
    }
  }

  method DecodeBlocks(f: Format, data: seq<byte>, size: nat, channels: nat, perBlock: nat, count: nat)
    returns (pcm: seq<i16>)
    requires Decodable(f, channels, perBlock) && size == BlockSize(f, channels, perBlock) > 0
    requires count * size <= |data|
    ensures pcm == Blocks(f, data, size, channels, perBlock, count)
  {
    hide BlockSize, Frames, Decodable;
    pcm := [];
    for b := 0 to count
      invariant 0 <= b * size <= |data|
      invariant pcm == Blocks(f, data, size, channels, perBlock, b)
    {
      Inside(b, count, size, size - 1);
      var samples := DecodeBlock(f, BlockOf(data, size, b), channels, perBlock);
      pcm := pcm + samples;
    }
  }

  /** Both decoders: block after block, each from its own header. */
  method Decode(f: Format, data: seq<byte>, channels: u16, perBlock: u16) returns (pcm: seq<i16>)
    ensures pcm == Decoded(f, data, channels, perBlock)
  {
    hide BlockSize, Blocks, WholeBlocks;
    if channels == 0 || perBlock < Smallest(f) {
      return [];
    }
    SizePositive(f, channels, perBlock);
    var size := BlockSize(f, channels, perBlock);
    pcm := DecodeBlocks(f, data, size, channels, perBlock, WholeBlocks(|data|, size));
  }
}
