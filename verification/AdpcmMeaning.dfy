/**
ADPCM blocks against a writer of them: headers and nibbles read back from the
bytes that hold them, and each step told by what it does to a sample.
*/
module AdpcmMeaning {
  import opened Bytes
  import opened AdpcmSteps
  import opened Adpcm

  // ----- Nibbles -----

  /** Nibbles two to a byte, the first in the high half. */
  function Packed(ns: seq<Nibble>): (b: seq<byte>)
    ensures |b| == (|ns| + 1) / 2
    decreases |ns|
  {
    if ns == [] then []
    else if |ns| == 1 then [16 * ns[0] as int]
    else [16 * ns[0] as int + ns[1] as int] + Packed(ns[2..])
  }

  lemma {:induction false} PackedAt(ns: seq<Nibble>, i: nat)
    requires i < |ns|
    ensures var even := i - i % 2;
            Packed(ns)[i / 2] == 16 * ns[even] as int + (if even + 1 < |ns| then ns[even + 1] as int else 0)
    decreases |ns|
  {
    if i >= 2 {
      PackedAt(ns[2..], i - 2);
      assert (i - 2) / 2 == i / 2 - 1 && (i - 2) % 2 == i % 2;
    }
  }

  lemma Halves(high: Nibble, low: Nibble)
    ensures (16 * high as int + low as int) / 16 == high && (16 * high as int + low as int) % 16 == low
  {
  }

  lemma NibbleOfPair(block: seq<byte>, header: nat, i: nat, high: Nibble, low: Nibble)
    requires header + i / 2 < |block| && block[header + i / 2] == 16 * high as int + low as int
    ensures NibbleAt(block, header, i) == if i % 2 == 0 then high else low
  {
    Halves(high, low);
  }

  lemma ByteAfter(header: seq<byte>, body: seq<byte>, tail: seq<byte>, i: nat)
    requires i < |body|
    ensures (header + body + tail)[|header| + i] == body[i]
  {
  }

  /** Nibble `i` of a block is the one that was written as the `i`-th after the header. */
  lemma NibbleReadBack(header: seq<byte>, ns: seq<Nibble>, tail: seq<byte>, i: nat)
    requires i < |ns|
    ensures NibbleAt(header + Packed(ns) + tail, |header|, i) == ns[i]
  {
    hide Packed, NibbleAt;
    var even := i - i % 2;
    PackedAt(ns, i);
    ByteAfter(header, Packed(ns), tail, i / 2);
    NibbleOfPair(header + Packed(ns) + tail, |header|, i, ns[even], if even + 1 < |ns| then ns[even + 1] else 0);
  }

  // ----- Words -----

  /** A sample, little-endian. */
  function SampleBytes(n: i16): (b: seq<byte>)
    ensures |b| == 2
  {
    Bytes16(if n >= 0 then n else n + 0x1_0000)
  }

  lemma WordReadBack(block: seq<byte>, i: nat, n: i16)
    requires i + 2 <= |block| && block[i..i + 2] == SampleBytes(n)
    ensures Word(block, i) == n
  {
    assert block[i] == block[i..i + 2][0] && block[i + 1] == block[i..i + 2][1];
  }

  function SamplesBytes(ns: seq<i16>): (b: seq<byte>)
    ensures |b| == 2 * |ns|
  {
    if ns == [] then [] else SampleBytes(ns[0]) + SamplesBytes(ns[1..])
  }

  lemma {:induction false} SamplesAt(ns: seq<i16>, i: nat)
    requires i < |ns|
    ensures SamplesBytes(ns)[2 * i..2 * i + 2] == SampleBytes(ns[i])
  {
    var all, rest := SamplesBytes(ns), SamplesBytes(ns[1..]);
    if i > 0 {
      SamplesAt(ns[1..], i - 1);
      assert all[2 * i..2 * i + 2] == rest[2 * (i - 1)..2 * (i - 1) + 2];
    }
  }

  // ----- Headers -----

  function Predictors(ss: seq<Ms>): (b: seq<byte>)
    ensures |b| == |ss| && forall i | 0 <= i < |ss| :: b[i] == ss[i].predictor
  {
    seq(|ss|, i requires 0 <= i < |ss| => ss[i].predictor)
  }

  function Deltas(ss: seq<Ms>): (r: seq<i16>)
    ensures |r| == |ss| && forall i | 0 <= i < |ss| :: r[i] == ss[i].delta
  {
    seq(|ss|, i requires 0 <= i < |ss| => ss[i].delta)
  }

  function Newer(ss: seq<Ms>): (r: seq<i16>)
    ensures |r| == |ss| && forall i | 0 <= i < |ss| :: r[i] == ss[i].s1
  {
    seq(|ss|, i requires 0 <= i < |ss| => ss[i].s1)
  }

  function Older(ss: seq<Ms>): (r: seq<i16>)
    ensures |r| == |ss| && forall i | 0 <= i < |ss| :: r[i] == ss[i].s2
  {
    seq(|ss|, i requires 0 <= i < |ss| => ss[i].s2)
  }

  /** A Microsoft header: all predictors, all deltas, all newer samples, all older samples. */
  function MsHeader(ss: seq<Ms>): (b: seq<byte>)
    ensures |b| == 7 * |ss|
  {
    Predictors(ss) + SamplesBytes(Deltas(ss)) + SamplesBytes(Newer(ss)) + SamplesBytes(Older(ss))
  }

  lemma Inner<T>(before: seq<T>, all: seq<T>, after: seq<T>, i: nat, n: nat)
    requires i + n <= |all|
    ensures (before + all + after)[|before| + i..|before| + i + n] == all[i..i + n]
  {
  }

  lemma SampleIn(before: seq<byte>, ns: seq<i16>, after: seq<byte>, i: nat)
    requires i < |ns|
    ensures var block, at := before + SamplesBytes(ns) + after, |before| + i * 2;
            at + 2 <= |block| && block[at..at + 2] == SampleBytes(ns[i])
  {
    hide SampleBytes, SamplesBytes;
    SamplesAt(ns, i);
    Inner(before, SamplesBytes(ns), after, 2 * i, 2);
  }

  lemma WordIn(block: seq<byte>, before: seq<byte>, ns: seq<i16>, after: seq<byte>, i: nat)
    requires block == before + SamplesBytes(ns) + after && i < |ns|
    ensures Word(block, |before| + i * 2) == ns[i]
  {
    hide *;
    SampleIn(before, ns, after, i);
    WordReadBack(block, |before| + i * 2, ns[i]);
  }

  /** The decoder starts each channel from what the header holds for it. */
  lemma MsStartReadBack(ss: seq<Ms>, tail: seq<byte>, ch: nat)
    requires ch < |ss|
    ensures MsStart(MsHeader(ss) + tail, |ss|, ch) == ss[ch]
  {
    hide Word;
    var block, n := MsHeader(ss) + tail, |ss|;
    var a, b, c, d := Predictors(ss), SamplesBytes(Deltas(ss)), SamplesBytes(Newer(ss)), SamplesBytes(Older(ss));
    assert block[ch] == a[ch];
    assert block == a + b + (c + d + tail) && block == (a + b) + c + (d + tail) && block == (a + b + c) + d + tail;
    WordIn(block, a, Deltas(ss), c + d + tail, ch);
    WordIn(block, a + b, Newer(ss), d + tail, ch);
    WordIn(block, a + b + c, Older(ss), tail, ch);
  }

  /** A predictor byte past the table selects the first pair. */
  lemma UnknownPredictor(block: seq<byte>, channels: nat, ch: nat)
    requires ch < |block|
    ensures MsStart(block, channels, ch).predictor == if block[ch] <= 6 then block[ch] else 0
  {
  }

  /** An IMA header: for each channel its sample, its step index and a reserved byte. */
  function ImaHeader(ss: seq<Ima>): (b: seq<byte>)
    ensures |b| == 4 * |ss|
  {
    if ss == [] then [] else SampleBytes(ss[0].sample) + [ss[0].index, 0] + ImaHeader(ss[1..])
  }

  lemma {:induction false} ImaHeaderAt(ss: seq<Ima>, ch: nat)
    requires ch < |ss|
    ensures ImaHeader(ss)[4 * ch..4 * ch + 2] == SampleBytes(ss[ch].sample) && ImaHeader(ss)[4 * ch + 2] == ss[ch].index
  {
    hide SampleBytes;
    var all, rest := ImaHeader(ss), ImaHeader(ss[1..]);
    if ch > 0 {
      ImaHeaderAt(ss[1..], ch - 1);
      assert all[4 * ch..4 * ch + 2] == rest[4 * (ch - 1)..4 * (ch - 1) + 2];
      assert all[4 * ch + 2] == rest[4 * (ch - 1) + 2];
    }
  }

  lemma Front<T>(all: seq<T>, after: seq<T>, i: nat)
    requires i + 3 <= |all|
    ensures (all + after)[i..i + 2] == all[i..i + 2] && (all + after)[i + 2] == all[i + 2]
  {
  }

  lemma ImaFields(ss: seq<Ima>, tail: seq<byte>, ch: nat)
    requires ch < |ss|
    ensures var block := ImaHeader(ss) + tail;
            4 * ch + 3 <= |block| && Word(block, 4 * ch) == ss[ch].sample && block[4 * ch + 2] == ss[ch].index
  {
    hide SampleBytes, Word, ImaHeader;
    ImaHeaderAt(ss, ch);
    Front(ImaHeader(ss), tail, 4 * ch);
    WordReadBack(ImaHeader(ss) + tail, 4 * ch, ss[ch].sample);
  }

  lemma ImaStartReadBack(ss: seq<Ima>, tail: seq<byte>, ch: nat)
    requires ch < |ss|
    ensures ImaStart(ImaHeader(ss) + tail, ch) == ss[ch]
  {
    hide Word, ImaHeader;
    ImaFields(ss, tail, ch);
  }

  // ----- Whole blocks -----

  /** The states of one channel over its own nibbles. */
  function MsRun(s: Ms, ns: seq<Nibble>): Ms
    decreases |ns|
  {
    if ns == [] then s else MsStep(MsRun(s, ns[..|ns| - 1]), ns[|ns| - 1])
  }

  function ImaRun(s: Ima, ns: seq<Nibble>): Ima
    decreases |ns|
  {
    if ns == [] then s
    else
      var before := ImaRun(s, ns[..|ns| - 1]);
      ImaStep(before, STEP_TABLE[before.index], ns[|ns| - 1])
  }

  /** Every `channels`-th nibble from `ch` on: the first `count` of one channel. */
  function Own(ns: seq<Nibble>, channels: nat, ch: nat, count: nat): (r: seq<Nibble>)
    requires count > 0 ==> (count - 1) * channels + ch < |ns|
    ensures |r| == count
    decreases count
  {
    if count == 0 then []
    else
      assert count > 1 ==> (count - 2) * channels + ch <= (count - 1) * channels + ch;
      Own(ns, channels, ch, count - 1) + [ns[(count - 1) * channels + ch]]
  }

  /**
  In a block that holds these headers and these nibbles, a channel's state after
  some samples is its own header run over its own nibbles.
  */
  lemma {:induction false} MsBlock(ss: seq<Ms>, ns: seq<Nibble>, tail: seq<byte>, ch: nat, count: nat)
    requires ch < |ss| && (count > 0 ==> (count - 1) * |ss| + ch < |ns|)
    ensures MsAt(MsHeader(ss) + Packed(ns) + tail, |ss|, ch, count) == MsRun(ss[ch], Own(ns, |ss|, ch, count))
    decreases count
  {
    hide MsStep, MsStart, NibbleAt, MsHeader;
    var block := MsHeader(ss) + Packed(ns) + tail;
    if count == 0 {
      assert block == MsHeader(ss) + (Packed(ns) + tail);
      MsStartReadBack(ss, Packed(ns) + tail, ch);
    } else {
      Earlier(count, |ss|, ch);
      MsBlock(ss, ns, tail, ch, count - 1);
      NibbleReadBack(MsHeader(ss), ns, tail, (count - 1) * |ss| + ch);
      var own := Own(ns, |ss|, ch, count);
      assert own[..count - 1] == Own(ns, |ss|, ch, count - 1);
    }
  }

  lemma Earlier(count: nat, channels: nat, ch: nat)
    requires count > 0
    ensures count > 1 ==> (count - 2) * channels + ch <= (count - 1) * channels + ch
  {
    if count > 1 {
      assert (count - 1) * channels == (count - 2) * channels + channels;
    }
  }

  lemma {:induction false} ImaBlock(ss: seq<Ima>, ns: seq<Nibble>, tail: seq<byte>, ch: nat, count: nat)
    requires ch < |ss| && (count > 0 ==> (count - 1) * |ss| + ch < |ns|)
    ensures ImaAt(ImaHeader(ss) + Packed(ns) + tail, |ss|, ch, count) == ImaRun(ss[ch], Own(ns, |ss|, ch, count))
    decreases count
  {
    hide ImaStep, ImaStart, NibbleAt, ImaHeader, Packed;
    var block := ImaHeader(ss) + Packed(ns) + tail;
    if count == 0 {
      assert block == ImaHeader(ss) + (Packed(ns) + tail);
      ImaStartReadBack(ss, Packed(ns) + tail, ch);
    } else {
      Earlier(count, |ss|, ch);
      ImaBlock(ss, ns, tail, ch, count - 1);
      NibbleReadBack(ImaHeader(ss), ns, tail, (count - 1) * |ss| + ch);
      var own := Own(ns, |ss|, ch, count);
      assert own[..count - 1] == Own(ns, |ss|, ch, count - 1);
    }
  }

  /** The two uncompressed samples of a Microsoft block come first, the older one before the newer. */
  lemma OldestFirst(ss: seq<Ms>, tail: seq<byte>, ch: nat)
    requires ch < |ss|
    ensures Sample(MsAdpcm, MsHeader(ss) + tail, |ss|, ch, 0) == ss[ch].s2
    ensures Sample(MsAdpcm, MsHeader(ss) + tail, |ss|, ch, 1) == ss[ch].s1
  {
    hide MsStart, MsHeader;
    MsStartReadBack(ss, tail, ch);
  }

  // ----- Steps -----

  /** The quotient of a division toward zero, by what makes it unique. */
  lemma QuotientExactly(a: int, b: int, q: int)
    requires b > 0
    ensures Quotient(a, b) == q <==> if a >= 0 then q >= 0 && 0 <= a - q * b < b else q <= 0 && 0 <= q * b - a < b
  {
    if a >= 0 {
      DivisionUnique(a, b, q);
    } else {
      DivisionUnique(-a, b, -q);
      assert -(q * b) == -q * b;
    }
  }

  lemma NextMultiple(q: int, d: int, b: int)
    requires q < d && b > 0
    ensures q * b + b <= d * b
  {
    Scale(q + 1, d, b);
    assert (q + 1) * b == q * b + b;
  }

  lemma DivisionUnique(a: int, b: int, q: int)
    requires a >= 0 && b > 0
    ensures a / b == q <==> q >= 0 && 0 <= a - q * b < b
  {
    var d := a / b;
    assert a == d * b + a % b;
    if q >= 0 && 0 <= a - q * b < b {
      if d > q {
        NextMultiple(q, d, b);
        assert false;
      } else if d < q {
        NextMultiple(d, q, b);
        assert false;
      }
    }
  }

  /** Narrowing keeps the number modulo 2^16. */
  lemma WrappedExactly(n: i32, w: i16)
    ensures Wrapped(n) == w <==> (n - w) % 0x1_0000 == 0
  {
  }

  lemma SignedExactly(n: Nibble, s: int)
    ensures Signed(n) == s <==> -8 <= s < 8 && (n - s) % 16 == 0
  {
  }

  /** The tables of the format. */
  lemma Tables()
    ensures seq(7, p requires 0 <= p < 7 => Coefficient1(p)) == [256, 512, 0, 192, 240, 460, 392]
    ensures seq(7, p requires 0 <= p < 7 => Coefficient2(p)) == [0, -256, 0, 64, 0, -208, -232]
    ensures seq(16, n requires 0 <= n < 16 => Adaptation(n)) ==
            [230, 230, 230, 230, 307, 409, 512, 614, 768, 614, 512, 409, 307, 230, 230, 230]
    ensures seq(16, n requires 0 <= n < 16 => IndexChange(n)) ==
            [-1, -1, -1, -1, 2, 4, 6, 8, -1, -1, -1, -1, 2, 4, 6, 8]
  {
  }

  /** `r` is the nearest number to `n` that sixteen bits hold. */
  predicate Saturates(n: int, r: int) {
    if n > 32767 then r == 32767 else if n < -32768 then r == -32768 else r == n
  }

  /**
  An IMA step moves the sample down when the nibble's high bit is set and else up,
  by the odd multiple of an eighth of the step that its low bits name, less at most
  17 eighths, and stops at the ends of the range.
  */
  lemma ImaMoves(s: Ima, step: StepSize, n: Nibble) returns (distance: nat)
    ensures 8 * distance <= (2 * (n % 8) + 1) * step <= 8 * distance + 17
    ensures Saturates(if n >= 8 then s.sample - distance else s.sample + distance, ImaStep(s, step, n).sample)
    ensures var i := s.index + (if n % 8 < 4 then -1 else 2 * (n % 8) - 6);
            ImaStep(s, step, n).index == if i < 0 then 0 else if i > 88 then 88 else i
  {
    DifferenceClose(step, n);
    distance := Difference(step, n);
  }

  /**
  A Microsoft step adds to the narrowed prediction the delta times an eighth of the
  nibble, a negative one counted from minus one, toward zero; the older sample is
  forgotten and the delta scaled by the table, between 16 and 32767.
  */
  lemma MsMoves(s: Ms, n: Nibble) returns (prediction: i32, change: int, scaled: int)
    ensures prediction == Quotient(Coefficient1(s.predictor) * s.s1 + Coefficient2(s.predictor) * s.s2, 256)
    ensures change == Quotient(s.delta * (if n < 8 then n else n - 15), 8)
    ensures scaled == Quotient(s.delta * Adaptation(n), 256)
    ensures var next := MsStep(s, n);
            && next.predictor == s.predictor && next.s2 == s.s1
            && Saturates(Wrapped(prediction) + change, next.s1)
            && next.delta == if scaled < 16 then 16 else if scaled > 32767 then 32767 else scaled
  {
    hide Quotient, Coefficient1, Coefficient2, Adaptation, Wrapped;
    prediction, change, scaled := Predicted(s), Change(s.delta, n), Quotient(s.delta * Adaptation(n), 256);
    Commutes(Coefficient1(s.predictor), s.s1);
    Commutes(Coefficient2(s.predictor), s.s2);
    Commutes(s.delta, if n < 8 then n else n - 15);
  }

  lemma Commutes(a: int, b: int)
    ensures a * b == b * a
  {
  }

  // ----- Sizes -----

  /** A written block of so many samples a channel is exactly as long as the decoder expects. */
  lemma BlockFits(ms: seq<Ms>, imas: seq<Ima>, ns: seq<Nibble>, perBlock: nat)
    ensures perBlock >= 3 && |ns| == (perBlock - 2) * |ms| ==>
              BlockSize(MsAdpcm, |ms|, perBlock) == |MsHeader(ms) + Packed(ns)|
    ensures perBlock >= 1 && |ns| == (perBlock - 1) * |imas| ==>
              BlockSize(ImaAdpcm, |imas|, perBlock) == |ImaHeader(imas) + Packed(ns)|
  {
  }

  /** Block `b` of a buffer is the block written there. */
  lemma BlockWritten(before: seq<byte>, block: seq<byte>, after: seq<byte>, b: nat)
    requires |before| == b * |block|
    ensures BlockOf(before + block + after, |block|, b) == block
  {
    var data := before + block + after;
    assert data[|before|..|before| + |block|] == block;
  }

  /** What is decoded at all: at least one channel, and a block of at least three or one samples. */
  lemma DecodesExactly(f: Format, channels: nat, perBlock: nat)
    ensures Decodable(f, channels, perBlock) <==>
            channels >= 1 && match f case MsAdpcm => perBlock >= 3 case ImaAdpcm => perBlock >= 1
  {
  }
}
