/**
One channel of Microsoft ADPCM and of IMA ADPCM: the header of a block and the
step by one nibble. The 16- and 32-bit types of the intermediates are the
source's, so their constraints say that nothing overflows.
*/
module AdpcmSteps {
  import opened Bytes

  type i16 = n: int | -0x8000 <= n < 0x8000
  type i32 = n: int | -0x8000_0000 <= n < 0x8000_0000
  type Nibble = n: int | 0 <= n < 16

  // ----- Reading a block -----

  function ByteAt(block: seq<byte>, i: nat): byte {
    if i < |block| then block[i] else 0
  }

  /** Even positions are high nibbles. */
  function NibbleAt(block: seq<byte>, header: nat, index: nat): Nibble {
    var b := ByteAt(block, header + index / 2);
    if index % 2 == 0 then b / 16 else b % 16
  }

  /** Where a channel's nibble for a sample is among the interleaved nibbles. */
  function Position(sample: nat, channels: nat, ch: nat): nat {
    sample * channels + ch
  }

  function Signed(n: Nibble): i16 {
    if n >= 8 then n - 16 else n
  }

  function Word(block: seq<byte>, i: nat): i16 {
    var n := ByteAt(block, i) as int + 256 * ByteAt(block, i + 1) as int;
    if n < 0x8000 then n else n - 0x1_0000
  }

  // ----- Fixed-width arithmetic -----

  /** Division toward zero. */
  function Quotient(a: int, b: int): int
    requires b > 0
  {
    if a >= 0 then a / b else -((-a) / b)
  }

  /** The low sixteen bits as a signed number. */
  function Wrapped(n: i32): i16 {
    var low := n % 0x1_0000;
    if low < 0x8000 then low else low - 0x1_0000
  }

  function Clamped(n: int, low: int, high: int): (r: int)
    requires low <= high
    ensures low <= r <= high && (low <= n <= high ==> r == n)
  {
    if n < low then low else if n > high then high else n
  }

  function SaturatingAdd(a: i16, b: i16): i16 {
    Clamped(a + b, -0x8000, 0x7fff)
  }

  lemma WrapsExactly(n: i32)
    ensures Wrapped(n) == n <==> -0x8000 <= n < 0x8000
  {
  }

  lemma QuotientBounds(a: int, b: int, k: int)
    requires b > 0 && k >= 0 && -k * b <= a <= k * b
    ensures -k <= Quotient(a, b) <= k
  {
    if a >= 0 {
      DivideBelow(a, b, k);
    } else {
      DivideBelow(-a, b, k);
    }
  }

  lemma DivideBelow(a: int, b: int, k: int)
    requires b > 0 && k >= 0 && 0 <= a <= k * b
    ensures 0 <= a / b <= k
  {
    assert a == (a / b) * b + a % b;
    if a / b > k {
      Scale(k + 1, a / b, b);
      assert false;
    }
  }

  lemma Scale(a: int, m: int, b: int)
    requires b >= 0 && a <= m
    ensures a * b <= m * b
  {
    assert (m - a) * b >= 0;
  }

  // ----- Microsoft ADPCM -----

  type Predictor = p: int | 0 <= p < 7

  /** Which pair of coefficients, the adaptive delta, and the last two samples. */
  datatype Ms = Ms(predictor: Predictor, delta: i16, s1: i16, s2: i16)

  function Coefficient1(p: Predictor): i16 {
    if p == 0 then 256 else if p == 1 then 512 else if p == 2 then 0 else if p == 3 then 192
    else if p == 4 then 240 else if p == 5 then 460 else 392
  }

  function Coefficient2(p: Predictor): i16 {
    if p == 1 then -256 else if p == 3 then 64 else if p == 5 then -208 else if p == 6 then -232 else 0
  }

  function Adaptation(n: Nibble): (r: i16)
    ensures 230 <= r <= 768
  {
    if n <= 3 || n >= 13 then 230
    else if n == 4 || n == 12 then 307
    else if n == 5 || n == 11 then 409
    else if n == 6 || n == 10 then 512
    else if n == 7 || n == 9 then 614
    else 768
  }

  function Product(a: i16, b: i16): (r: i32)
    ensures b <= 768 && -768 <= b ==> -0x8000 * 768 <= r <= 0x8000 * 768
  {
    var size: int := if b < 0 then -(b as int) else b;
    ProductBounds(a, b, size);
    a * b
  }

  lemma ProductBounds(a: int, b: int, k: int)
    requires -0x8000 <= a <= 0x8000 && -k <= b <= k
    ensures -0x8000 * k <= a * b <= 0x8000 * k
  {
    if b >= 0 {
      Scale(a, 0x8000, b);
      Scale(-0x8000, a, b);
    } else {
      Scale(a, 0x8000, -b);
      Scale(-0x8000, a, -b);
    }
  }

  /** The weighted history before it is narrowed to sixteen bits. */
  function Predicted(s: Ms): i32 {
    var sum: i32 := Product(s.s1, Coefficient1(s.predictor)) + Product(s.s2, Coefficient2(s.predictor));
    QuotientBounds(sum, 256, 0x7f_ffff);
    Quotient(sum, 256)
  }

  /** The signed nibble, a negative one counted from minus one, times an eighth of the delta. */
  function Change(delta: i16, n: Nibble): (r: i16)
    ensures -28672 <= r <= 28672
  {
    var m: i16 := if Signed(n) >= 0 then Signed(n) else Signed(n) + 1;
    ProductBounds(delta, m, 7);
    var product: i32 := m * delta;
    QuotientBounds(product, 8, 28672);
    Quotient(product, 8)
  }

  function AdaptedDelta(delta: i16, n: Nibble): (r: i16)
    ensures 16 <= r <= 32767
  {
    Clamped(Quotient(Product(delta, Adaptation(n)), 256), 16, 32767)
  }

  function MsStep(s: Ms, n: Nibble): Ms {
    var sample := SaturatingAdd(Wrapped(Predicted(s)), Change(s.delta, n));
    Ms(s.predictor, AdaptedDelta(s.delta, n), sample, s.s1)
  }

  /** A predictor byte past the table selects the first pair. */
  function MsStart(block: seq<byte>, channels: nat, ch: nat): Ms {
    var p := ByteAt(block, ch);
    Ms(if p < 7 then p else 0,
       Word(block, channels + ch * 2),
       Word(block, channels + channels * 2 + ch * 2),
       Word(block, channels + channels * 2 + channels * 2 + ch * 2))
  }

  function MsAt(block: seq<byte>, channels: nat, ch: nat, steps: nat): Ms {
    if steps == 0 then MsStart(block, channels, ch)
    else MsStep(MsAt(block, channels, ch, steps - 1), NibbleAt(block, 7 * channels, Position(steps - 1, channels, ch)))
  }

  /** Every delta after an update is between 16 and 32767, whatever the header held. */
  lemma DeltaInRange(block: seq<byte>, channels: nat, ch: nat, steps: nat)
    requires steps > 0
    ensures 16 <= MsAt(block, channels, ch, steps).delta <= 32767
  {
    hide NibbleAt, AdaptedDelta, Predicted, Change, SaturatingAdd, Wrapped;
  }

  /** The narrowing of the prediction is exact for every history exactly when the coefficients cannot amplify. */
  lemma PredictionFitsExactly(p: Predictor)
    ensures (forall d, s1, s2 :: Wrapped(Predicted(Ms(p, d, s1, s2))) == Predicted(Ms(p, d, s1, s2))) <==>
            p == 0 || p == 2 || p == 3 || p == 4
  {
    hide Predicted, Wrapped;
    if p == 0 || p == 2 || p == 3 || p == 4 {
      forall d, s1, s2
        ensures Wrapped(Predicted(Ms(p, d, s1, s2))) == Predicted(Ms(p, d, s1, s2))
      {
        PredictionFits(p, d, s1, s2);
        WrapsExactly(Predicted(Ms(p, d, s1, s2)));
      }
    } else {
      var s := Ms(p, 0, 32767, -32768);
      PredictionLeaves(p);
      WrapsExactly(Predicted(s));
    }
  }

  lemma PredictionFits(p: Predictor, d: i16, s1: i16, s2: i16)
    requires p == 0 || p == 2 || p == 3 || p == 4
    ensures -0x8000 <= Predicted(Ms(p, d, s1, s2)) < 0x8000
  {
    var sum := s1 * Coefficient1(p) + s2 * Coefficient2(p);
    assert -0x8000 * 256 <= sum <= 0x7fff * 256;
  }

  lemma PredictionLeaves(p: Predictor)
    requires p == 1 || p == 5 || p == 6
    ensures Predicted(Ms(p, 0, 32767, -32768)) > 0x7fff
  {
  }

  // ----- IMA ADPCM -----

  type StepIndex = i: int | 0 <= i <= 88
  type StepSize = s: int | 7 <= s <= 32767 witness 7

  const STEP_TABLE: seq<StepSize> := [
    7, 8, 9, 10, 11, 12, 13, 14, 16, 17, 19, 21, 23, 25, 28, 31, 34, 37, 41, 45, 50, 55, 60, 66,
    73, 80, 88, 97, 107, 118, 130, 143, 157, 173, 190, 209, 230, 253, 279, 307, 337, 371, 408, 449,
    494, 544, 598, 658, 724, 796, 876, 963, 1060, 1166, 1282, 1411, 1552, 1707, 1878, 2066, 2272,
    2499, 2749, 3024, 3327, 3660, 4026, 4428, 4871, 5358, 5894, 6484, 7132, 7845, 8630, 9493,
    10442, 11487, 12635, 13899, 15289, 16818, 18500, 20350, 22385, 24623, 27086, 29794, 32767]

  datatype Ima = Ima(sample: i16, index: StepIndex)

  function IndexChange(n: Nibble): int {
    var m := n % 8;
    if m < 4 then -1 else 2 * (m - 3)
  }

  /** The size of the difference that the three low bits of a nibble select. */
  function Difference(step: StepSize, n: Nibble): (r: i32)
    ensures 0 <= r
  {
    (if n / 4 % 2 == 1 then step else 0) + (if n / 2 % 2 == 1 then step / 2 else 0) +
    (if n % 2 == 1 then step / 4 else 0) + step / 8
  }

  /** It is the odd multiple of an eighth of the step that the bits name, less at most 17 eighths of rounding. */
  lemma DifferenceClose(step: StepSize, n: Nibble)
    ensures 8 * Difference(step, n) <= (2 * (n % 8) + 1) * step <= 8 * Difference(step, n) + 17
  {
    var a, b, c := n / 4 % 2, n / 2 % 2, n % 2;
    assert n % 8 == 4 * a + 2 * b + c;
    var x, y, z := if a == 1 then step else 0, if b == 1 then step else 0, if c == 1 then step else 0;
    assert (2 * (4 * a + 2 * b + c) + 1) * step == 8 * x + 4 * y + 2 * z + step by {
      OddMultiple(step, a, b, c, x, y, z);
    }
    assert y / 2 == (if b == 1 then step / 2 else 0) && z / 4 == if c == 1 then step / 4 else 0;
  }

  lemma OddMultiple(step: int, a: int, b: int, c: int, x: int, y: int, z: int)
    requires 0 <= a <= 1 && 0 <= b <= 1 && 0 <= c <= 1
    requires x == (if a == 1 then step else 0) && y == (if b == 1 then step else 0) && z == if c == 1 then step else 0
    ensures (2 * (4 * a + 2 * b + c) + 1) * step == 8 * x + 4 * y + 2 * z + step
  {
    if a == 0 {
      assert 2 * (2 * b + c) + 1 == 1 + 2 * c + 4 * b;
    }
  }

  function ImaStep(s: Ima, step: StepSize, n: Nibble): Ima {
    var diff := Difference(step, n);
    var sum: i32 := if n >= 8 then s.sample - diff else s.sample + diff;
    Ima(Clamped(sum, -0x8000, 0x7fff),
        Clamped(s.index + IndexChange(n), 0, 88))
  }

  function ImaStart(block: seq<byte>, ch: nat): Ima {
    Ima(Word(block, ch * 4), Clamped(ByteAt(block, ch * 4 + 2), 0, 88))
  }

  function StepFor(i: StepIndex): StepSize {
    assert |STEP_TABLE| == 89;
    STEP_TABLE[i]
  }

  function ImaAt(block: seq<byte>, channels: nat, ch: nat, steps: nat): Ima {
    if steps == 0 then ImaStart(block, ch)
    else
      var s := ImaAt(block, channels, ch, steps - 1);
      ImaStep(s, StepFor(s.index), NibbleAt(block, 4 * channels, Position(steps - 1, channels, ch)))
  }
}
