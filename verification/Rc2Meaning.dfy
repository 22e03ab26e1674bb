/** RC2 by the arithmetic of section 3 of RFC 2268: rotations, the bitwise choice, and what each step adds. */
module Rc2Meaning {
  import opened Bits
  import opened Bytes
  import opened Division
  import opened Rc2Block

  // ----- Bits and numbers -----

  lemma ValueThen(s: seq<bool>, bit: bool)
    ensures ValueOf(s + [bit]) == 2 * ValueOf(s) + if bit then 1 else 0
  {
    assert (s + [bit])[..|s|] == s;
  }

  lemma PowerThen(n: nat)
    ensures Power(n + 1) == 2 * Power(n)
  {
  }

  lemma {:induction false} ValueConcat(a: seq<bool>, b: seq<bool>)
    ensures ValueOf(a + b) == Times(ValueOf(a), Power(|b|)) + ValueOf(b)
    decreases |b|
  {
    hide ValueOf, Power, Times;
    if b == [] {
      assert a + b == a;
      NothingAfter(ValueOf(a));
    } else {
      var rest, last := b[..|b| - 1], b[|b| - 1];
      ValueConcat(a, rest);
      assert b == rest + [last] && a + b == (a + rest) + [last];
      ValueThen(a + rest, last);
      ValueThen(rest, last);
      PowerThen(|rest|);
      Doubled(ValueOf(a), Power(|rest|));
    }
  }

  function Times(a: nat, p: nat): nat {
    a * p
  }

  lemma NothingAfter(a: nat)
    ensures Times(a, Power(0)) == a && ValueOf([]) == 0
  {
  }

  lemma Doubled(a: nat, p: nat)
    ensures 2 * Times(a, p) == Times(a, 2 * p)
  {
  }

  function Not(s: seq<bool>): (r: seq<bool>)
    ensures |r| == |s| && forall i | 0 <= i < |s| :: r[i] == !s[i]
  {
    seq(|s|, i requires 0 <= i < |s| => !s[i])
  }

  lemma {:induction false} NotValue(s: seq<bool>)
    ensures ValueOf(Not(s)) == Power(|s|) - 1 - ValueOf(s)
    decreases |s|
  {
    if s != [] {
      NotValue(s[..|s| - 1]);
      assert Not(s)[..|s| - 1] == Not(s[..|s| - 1]);
    }
  }

  /** Each bit from one of two sources, as a third says. */
  function Chosen(mask: seq<bool>, a: seq<bool>, b: seq<bool>): (r: seq<bool>)
    requires |mask| == |a| == |b|
    ensures |r| == |mask| && forall i | 0 <= i < |mask| :: r[i] == if mask[i] then a[i] else b[i]
  {
    seq(|mask|, i requires 0 <= i < |mask| => if mask[i] then a[i] else b[i])
  }

  lemma {:induction false} ChosenValue(mask: seq<bool>, a: seq<bool>, b: seq<bool>)
    requires |mask| == |a| == |b|
    ensures ValueOf(Common(a, mask)) + ValueOf(Common(b, Not(mask))) == ValueOf(Chosen(mask, a, b))
    decreases |mask|
  {
    if mask != [] {
      var n := |mask| - 1;
      ChosenValue(mask[..n], a[..n], b[..n]);
      assert Common(a, mask)[..n] == Common(a[..n], mask[..n]);
      assert Common(b, Not(mask))[..n] == Common(b[..n], Not(mask[..n]));
      assert Chosen(mask, a, b)[..n] == Chosen(mask[..n], a[..n], b[..n]);
    }
  }

  // ----- Rotation -----

  /** A word rotated left: its high bits move to the low end. */
  lemma TurnedExactly(x: Word, k: nat)
    requires k <= 16
    ensures var high, low := ValueOf(WordBits(x)[..k]), ValueOf(WordBits(x)[k..]);
            && x == high * Power(16 - k) + low && low < Power(16 - k)
            && Turned(x, k) == low * Power(k) + high && high < Power(k)
  {
    hide BitsOf, ValueOf, Power;
    var s := WordBits(x);
    assert s == s[..k] + s[k..];
    ValueConcat(s[..k], s[k..]);
    ValueConcat(s[k..], s[..k]);
    WordBitsReadBack(x);
  }

  lemma Powers()
    ensures Power(1) == 2 && Power(2) == 4 && Power(3) == 8 && Power(5) == 32
    ensures Power(15) == 32768 && Power(14) == 16384 && Power(13) == 8192 && Power(11) == 2048
  {
    EightBits();
    assert Power(11) == 8 * Power(8);
    assert Power(13) == 4 * Power(11);
    assert Power(15) == 4 * Power(13);
    assert Power(14) == 2 * Power(13);
  }

  lemma TurnedBy(x: Word, k: nat, p: nat, q: nat)
    requires k <= 16 && Power(k) == p && Power(16 - k) == q && q > 0
    ensures Turned(x, k) == x % q * p + x / q
  {
    hide Turned, Power, ValueOf, WordBits;
    TurnedExactly(x, k);
    Divided(ValueOf(WordBits(x)[..k]), q, ValueOf(WordBits(x)[k..]));
  }

  /** The four words rotate by one, two, three and five. */
  lemma RotateExactly(x: Word)
    ensures RotateLeft(x, 0) == x % 32768 * 2 + x / 32768
    ensures RotateLeft(x, 1) == x % 16384 * 4 + x / 16384
    ensures RotateLeft(x, 2) == x % 8192 * 8 + x / 8192
    ensures RotateLeft(x, 3) == x % 2048 * 32 + x / 2048
  {
    hide Turned, Power;
    Powers();
    TurnedBy(x, 1, 2, 32768);
    TurnedBy(x, 2, 4, 16384);
    TurnedBy(x, 3, 8, 8192);
    TurnedBy(x, 5, 32, 2048);
  }

  // ----- Steps -----

  /** The word `d` places before word `i`, around the four. */
  function Earlier(r: Words, i: Index, d: nat): Word
    requires d <= 4
  {
    r[if i >= d then i - d else i - d + 4]
  }

  /** What a mixing step adds chooses, by each bit of the word before, between the two words before that. */
  lemma CompositeExactly(r: Words, i: Index)
    ensures WordBits(Composite(r, i)) ==
            Chosen(WordBits(Earlier(r, i, 1)), WordBits(Earlier(r, i, 2)), WordBits(Earlier(r, i, 3)))
  {
    hide WordBits, BitsWord, Common;
    var mask, a, b := Earlier(r, i, 1), Earlier(r, i, 2), Earlier(r, i, 3);
    assert Composite(r, i) == Add(Both(a, mask), Without(b, mask));
    ComplementBits(mask);
    ChoiceAdds(WordBits(mask), WordBits(a), WordBits(b));
    BitsWordReadBack(Chosen(WordBits(mask), WordBits(a), WordBits(b)));
  }

  lemma ComplementBits(x: Word)
    ensures WordBits(0xffff - x) == Not(WordBits(x))
  {
    hide BitsOf, ValueOf, Power;
    SixteenBits();
    NotValue(WordBits(x));
    WordBitsReadBack(x);
    BitsWordReadBack(Not(WordBits(x)));
  }

  lemma ChoiceAdds(mask: seq<bool>, a: seq<bool>, b: seq<bool>)
    requires |mask| == |a| == |b| == 16
    ensures Add(BitsWord(Common(a, mask)), BitsWord(Common(b, Not(mask)))) == BitsWord(Chosen(mask, a, b))
  {
    hide ValueOf, Power, Common;
    SixteenBits();
    ChosenValue(mask, a, b);
  }

  lemma AddExactly(x: Word, a: Word)
    ensures Add(x, a) == (x as int + a as int) % 0x1_0000
    ensures Subtract(x, a) == (x as int - a as int) % 0x1_0000
  {
  }

  /** A mixing step: the key word and the choice are added modulo 2^16, then the word rotates; the others stay. */
  lemma MixExactly(k: Table, i: Index, j: KeyIndex, r: Words)
    ensures var next := Forward(k, Mix(i, j), r);
            && next[i] == RotateLeft((r[i] as int + k[j] as int + Composite(r, i) as int) % 0x1_0000, i)
            && forall n | 0 <= n < 4 && n != i :: next[n] == r[n]
  {
    hide RotateLeft, Composite;
  }

  /** A mashing step adds the key word that the low six bits of the word before select. */
  lemma MashExactly(k: Table, i: Index, r: Words)
    ensures var next := Forward(k, Mash(i), r);
            && next[i] == (r[i] as int + k[Earlier(r, i, 1) % 64] as int) % 0x1_0000
            && forall n | 0 <= n < 4 && n != i :: next[n] == r[n]
  {
  }
}
