/**
Security identifiers between their `S-R-I-S...` text and their binary layout
(section 2.4.2.2 of MS-DTYP).
*/
module Sid {
  import opened Wrappers
  import opened Bytes
  import Decimal

  /** What the text says: the authority may be wider than its binary field. */
  datatype Sid = Sid(revision: byte, authority: nat, subauthorities: seq<u32>)

  const MAX_AUTHORITY := 0xFF_FFFF_FFFF_FFFF
  const TWO_48 := 0x1_0000_0000_0000

  // ----- Text -----

  function Split(s: string): (r: seq<string>)
    ensures r != []
  {
    if s == [] then [[]]
    else
      var rest := Split(s[1..]);
      if s[0] == '-' then [[]] + rest else [[s[0]] + rest[0]] + rest[1..]
  }

  function Join(parts: seq<string>): string
    requires parts != []
  {
    if |parts| == 1 then parts[0] else parts[0] + "-" + Join(parts[1..])
  }

  lemma {:induction false} JoinOfSplit(s: string)
    ensures Join(Split(s)) == s
  {
    if s != [] {
      JoinOfSplit(s[1..]);
      var rest := Split(s[1..]);
      if s[0] == '-' {
        assert ([[]] + rest)[1..] == rest;
      } else {
        assert ([[s[0]] + rest[0]] + rest[1..])[1..] == rest[1..];
      }
    }
  }

  lemma {:induction false} SplitPrefix(part: string, rest: string)
    requires '-' !in part
    ensures Split(part + "-" + rest) == [part] + Split(rest)
  {
    var s := part + "-" + rest;
    if part == [] {
      assert s[1..] == rest;
    } else {
      SplitPrefix(part[1..], rest);
      assert s[1..] == part[1..] + "-" + rest;
      assert part == [s[0]] + part[1..];
      assert ([part[1..]] + Split(rest))[1..] == Split(rest);
    }
  }

  lemma {:induction false} SplitOne(part: string)
    requires '-' !in part
    ensures Split(part) == [part]
  {
    if part != [] {
      SplitOne(part[1..]);
      assert part == [part[0]] + part[1..];
    }
  }

  lemma {:induction false} SplitOfJoin(parts: seq<string>)
    requires parts != [] && forall part | part in parts :: '-' !in part
    ensures Split(Join(parts)) == parts
  {
    if |parts| == 1 {
      SplitOne(parts[0]);
    } else {
      SplitOfJoin(parts[1..]);
      SplitPrefix(parts[0], Join(parts[1..]));
    }
  }

  function Prints(numbers: seq<u32>): (r: seq<string>)
    ensures |r| == |numbers|
    ensures forall i | 0 <= i < |numbers| :: r[i] == Decimal.Print(numbers[i])
  {
    seq(|numbers|, i requires 0 <= i < |numbers| => Decimal.Print(numbers[i]))
  }

  /** Every part parsed, or nothing. */
  function ParseAll(parts: seq<string>): (r: Option<seq<u32>>)
    ensures r.Some? ==> |r.value| == |parts|
    ensures r.Some? <==> forall i | 0 <= i < |parts| :: Decimal.Parse(parts[i], TWO_32 - 1).Some?
    ensures r.Some? ==> forall i | 0 <= i < |parts| :: Decimal.Parse(parts[i], TWO_32 - 1) == Some(r.value[i])
  {
    if parts == [] then Some([])
    else
      match (Decimal.Parse(parts[0], TWO_32 - 1), ParseAll(parts[1..]))
      case (Some(n), Some(rest)) => Some([n] + rest)
      case (_, _) => None
  }

  function Parts(x: Sid): seq<string> {
    [Decimal.Print(x.revision), Decimal.Print(x.authority)] + Prints(x.subauthorities)
  }

  function Text(x: Sid): string {
    "S-" + Join(Parts(x))
  }

  function ParseParts(parts: seq<string>): Option<Sid> {
    if |parts| < 2 then None
    else
      match (Decimal.Parse(parts[0], 255), Decimal.Parse(parts[1], TWO_64 - 1), ParseAll(parts[2..]))
      case (Some(revision), Some(authority), Some(subauthorities)) =>
        if authority > MAX_AUTHORITY || subauthorities == [] then None
        else Some(Sid(revision, authority, subauthorities))
      case (_, _, _) => None
  }

  function Parse(s: string): Option<Sid> {
    if |s| < 2 || s[..2] != "S-" then None else ParseParts(Split(s[2..]))
  }

  lemma PartsHaveNoDash(x: Sid)
    ensures forall part | part in Parts(x) :: '-' !in part
  {
    hide Decimal.Print;
  }

  lemma SplitOfText(x: Sid)
    ensures |Text(x)| >= 2 && Text(x)[..2] == "S-" && Split(Text(x)[2..]) == Parts(x)
  {
    hide Join, Split, Parts;
    PartsHaveNoDash(x);
    assert Parts(x) != [] by { NotEmpty(x); }
    SplitOfJoin(Parts(x));
    assert Text(x)[2..] == Join(Parts(x));
  }

  lemma NotEmpty(x: Sid)
    ensures Parts(x) != []
  {
  }

  /** Text reads back exactly when the authority is at most 56 bits wide and there is a subauthority. */
  lemma ParseOfText(x: Sid)
    ensures Parse(Text(x)) == if x.authority <= MAX_AUTHORITY && x.subauthorities != [] then Some(x) else None
  {
    hide Text, Split, Decimal.Parse, Decimal.Print;
    SplitOfText(x);
    Decimal.ParseOfPrint(x.revision, 255);
    Decimal.ParseOfPrint(x.authority, TWO_64 - 1);
    forall i | 0 <= i < |x.subauthorities|
      ensures Decimal.Parse(Parts(x)[2..][i], TWO_32 - 1) == Some(x.subauthorities[i])
    {
      Decimal.ParseOfPrint(x.subauthorities[i], TWO_32 - 1);
    }
    var read := ParseAll(Parts(x)[2..]);
    assert read.Some? && |read.value| == |x.subauthorities|;
    assert read.value == x.subauthorities;
  }

  /** One text stands for one identifier. */
  lemma TextInjective(x: Sid, y: Sid)
    requires Text(x) == Text(y)
    ensures x == y
  {
    hide Text, Split, Decimal.Print;
    SplitOfText(x);
    SplitOfText(y);
    assert Parts(x)[0] == Parts(y)[0] && Parts(x)[1] == Parts(y)[1] && Parts(x)[2..] == Parts(y)[2..];
    Decimal.PrintInjective(x.revision, y.revision);
    Decimal.PrintInjective(x.authority, y.authority);
    assert Parts(x)[2..] == Prints(x.subauthorities) && Parts(y)[2..] == Prints(y.subauthorities);
    forall i | 0 <= i < |x.subauthorities|
      ensures x.subauthorities[i] == y.subauthorities[i]
    {
      Decimal.PrintInjective(x.subauthorities[i], y.subauthorities[i]);
    }
  }

  // ----- Binary -----

  function BigEndian(n: nat, width: nat): (r: seq<byte>)
    ensures |r| == width
    decreases width
  {
    if width == 0 then [] else BigEndian(n / 256, width - 1) + [n % 256]
  }

  function FromBigEndian(s: seq<byte>): nat {
    if s == [] then 0 else 256 * FromBigEndian(s[..|s| - 1]) + s[|s| - 1]
  }

  function Power256(width: nat): nat {
    if width == 0 then 1 else 256 * Power256(width - 1)
  }

  /** What the low bytes drop of a number is a multiple of the field's range. */
  lemma {:induction false} LowBytes(n: nat, width: nat) returns (dropped: nat)
    ensures n == dropped * Power256(width) + FromBigEndian(BigEndian(n, width))
    ensures FromBigEndian(BigEndian(n, width)) < Power256(width)
    decreases width
  {
    if width == 0 {
      dropped := n;
    } else {
      dropped := LowBytes(n / 256, width - 1);
      assert BigEndian(n, width)[..width - 1] == BigEndian(n / 256, width - 1);
      Widened(dropped, Power256(width - 1), FromBigEndian(BigEndian(n / 256, width - 1)), n % 256);
    }
  }

  lemma Widened(dropped: nat, range: nat, low: nat, last: nat)
    ensures 256 * (dropped * range + low) + last == dropped * (256 * range) + (256 * low + last)
  {
    assert dropped * (256 * range) == 256 * (dropped * range);
  }

  lemma {:induction false} BigEndianBack(s: seq<byte>)
    ensures BigEndian(FromBigEndian(s), |s|) == s
  {
    if s != [] {
      BigEndianBack(s[..|s| - 1]);
    }
  }

  lemma {:induction false} DropBytes(n: nat, width: nat, drop: nat)
    requires drop <= width
    ensures BigEndian(n, width)[drop..] == BigEndian(n, width - drop)
    decreases width
  {
    if drop < width {
      DropBytes(n / 256, width - 1, drop);
    }
  }

  /** The six bytes of the authority field hold the authority modulo 2^48. */
  lemma AuthorityField(n: nat)
    ensures |BigEndian(n, 8)[2..]| == 6 && FromBigEndian(BigEndian(n, 8)[2..]) == n % TWO_48
  {
    hide BigEndian, FromBigEndian, Power256;
    DropBytes(n, 8, 2);
    var dropped := LowBytes(n, 6);
    assert Power256(6) == TWO_48 by { SixBytes(); }
  }

  lemma SixBytes()
    ensures Power256(6) == TWO_48
  {
    assert Power256(3) == 0x100_0000;
  }

  lemma FieldBack(s: seq<byte>)
    requires |s| == 6
    ensures BigEndian(FromBigEndian(s), 8)[2..] == s
    ensures FromBigEndian(s) < TWO_48
  {
    hide BigEndian, FromBigEndian;
    DropBytes(FromBigEndian(s), 8, 2);
    BigEndianBack(s);
    var dropped := LowBytes(FromBigEndian(s), 6);
    SixBytes();
  }

  function Words(numbers: seq<u32>): (r: seq<byte>)
    ensures |r| == 4 * |numbers|
  {
    if numbers == [] then [] else Bytes32(numbers[0]) + Words(numbers[1..])
  }

  function ReadWords(b: seq<byte>, at: nat, count: nat): (r: seq<u32>)
    requires at + 4 * count <= |b|
    ensures |r| == count
    decreases count
  {
    if count == 0 then [] else [Le32(b, at)] + ReadWords(b, at + 4, count - 1)
  }

  lemma {:induction false} WordsReadBack(b: seq<byte>, at: nat, numbers: seq<u32>)
    requires at + 4 * |numbers| <= |b| && b[at..at + 4 * |numbers|] == Words(numbers)
    ensures ReadWords(b, at, |numbers|) == numbers
    decreases |numbers|
  {
    hide Bytes32, Le32;
    if numbers != [] {
      var end := at + 4 * |numbers|;
      assert b[at..end][..4] == b[at..at + 4] && b[at..end][4..] == b[at + 4..end];
      assert Words(numbers)[..4] == Bytes32(numbers[0]) && Words(numbers)[4..] == Words(numbers[1..]);
      ReadBack32(b, at, numbers[0]);
      WordsReadBack(b, at + 4, numbers[1..]);
    }
  }

  lemma {:induction false} WordsWriteBack(b: seq<byte>, at: nat, count: nat)
    requires at + 4 * count <= |b|
    ensures Words(ReadWords(b, at, count)) == b[at..at + 4 * count]
    decreases count
  {
    hide Bytes32, Le32;
    if count > 0 {
      WriteBack32(b, at);
      WordsWriteBack(b, at + 4, count - 1);
      var end := at + 4 * count;
      assert b[at..end] == b[at..at + 4] + b[at + 4..end];
    }
  }

  /** The count is narrowed to a byte and the authority to 48 bits. */
  function Binary(x: Sid): seq<byte> {
    [x.revision, |x.subauthorities| % 256] + BigEndian(x.authority, 8)[2..] + Words(x.subauthorities)
  }

  function ParseBinary(b: seq<byte>): Option<Sid> {
    if |b| < 8 || |b| != 8 + 4 * (b[1] as int) then None
    else Some(Sid(b[0], FromBigEndian(b[2..8]), ReadWords(b, 8, b[1])))
  }

  /** The binary form reads back the identifier up to the width of the authority, or nothing past 255 subauthorities. */
  lemma ParseOfBinary(x: Sid)
    ensures ParseBinary(Binary(x)) ==
            if |x.subauthorities| <= 255 then Some(x.(authority := x.authority % TWO_48)) else None
  {
    hide BigEndian, FromBigEndian, Words, ReadWords;
    AuthorityField(x.authority);
    var b := Binary(x);
    if |x.subauthorities| <= 255 {
      assert b[2..8] == BigEndian(x.authority, 8)[2..];
      assert b[8..8 + 4 * |x.subauthorities|] == Words(x.subauthorities);
      WordsReadBack(b, 8, x.subauthorities);
    }
  }

  /** Every accepted binary form is the binary form of what it stands for, with a 48-bit authority. */
  lemma BinaryOfParse(b: seq<byte>)
    requires ParseBinary(b).Some?
    ensures Binary(ParseBinary(b).value) == b
    ensures ParseBinary(b).value.authority < TWO_48
  {
    hide BigEndian, FromBigEndian, Words, ReadWords;
    FieldBack(b[2..8]);
    WordsWriteBack(b, 8, b[1]);
    assert b == [b[0], b[1]] + b[2..8] + b[8..8 + 4 * (b[1] as int)];
  }

  // ----- Both ways -----

  function Encode(s: string): Option<seq<byte>> {
    match Parse(s)
    case Some(x) => Some(Binary(x))
    case None => None
  }

  function Decode(b: seq<byte>): Option<string> {
    match ParseBinary(b)
    case Some(x) => Some(Text(x))
    case None => None
  }

  /** A binary form that decodes encodes back to itself exactly when it has a subauthority. */
  lemma BinaryRoundTrip(b: seq<byte>)
    requires Decode(b).Some?
    ensures Encode(Decode(b).value) == if b[1] > 0 then Some(b) else None
  {
    hide Parse, Binary, Text;
    BinaryOfParse(b);
    ParseOfText(ParseBinary(b).value);
  }

  /** No two binary forms decode to one text. */
  lemma DecodeInjective(a: seq<byte>, b: seq<byte>)
    requires Decode(a).Some? && Decode(a) == Decode(b)
    ensures a == b
  {
    hide ParseBinary, Binary, Text;
    TextInjective(ParseBinary(a).value, ParseBinary(b).value);
    BinaryOfParse(a);
    BinaryOfParse(b);
  }

  /** Canonical decimal parts, a 48-bit authority and one to 255 subauthorities. */
  predicate Canonical(s: string) {
    && |s| >= 2 && s[..2] == "S-"
    && var parts := Split(s[2..]);
    && 3 <= |parts| <= 257
    && (forall i | 0 <= i < |parts| :: Decimal.Canonical(parts[i]))
    && Decimal.Number(parts[1]) < TWO_48
  }

  lemma PartsBackExactly(parts: seq<string>)
    requires ParseParts(parts).Some?
    ensures Parts(ParseParts(parts).value) == parts <==> forall i | 0 <= i < |parts| :: Decimal.Canonical(parts[i])
    ensures Decimal.Canonical(parts[1]) ==> ParseParts(parts).value.authority == Decimal.Number(parts[1])
    ensures |parts| == |ParseParts(parts).value.subauthorities| + 2 && |parts| > 2
  {
    hide Decimal.Print, Decimal.Number;
    var x := ParseParts(parts).value;
    Decimal.PrintsBackExactly(parts[0], 255);
    Decimal.PrintsBackExactly(parts[1], TWO_64 - 1);
    forall i | 2 <= i < |parts|
      ensures parts[i] == parts[2..][i - 2] && (Parts(x)[i] == parts[i] <==> Decimal.Canonical(parts[i]))
    {
      assert parts[i] == parts[2..][i - 2];
      Decimal.PrintsBackExactly(parts[i], TWO_32 - 1);
    }
    hide Decimal.Parse, Decimal.Canonical, ParseAll, ParseParts;
    assert forall i | 0 <= i < |parts| :: Parts(x)[i] == parts[i] <==> Decimal.Canonical(parts[i]);
    assert |Parts(x)| == |parts|;
  }

  /** An encodable text decodes back to itself exactly when it is canonical. */
  lemma TextRoundTrip(s: string)
    requires Encode(s).Some?
    ensures Decode(Encode(s).value) == Some(s) <==> Canonical(s)
  {
    hide Decimal.Canonical, Decimal.Number, Parts, ParseParts, Binary, ParseBinary, Split, Join;
    var x, parts := Parse(s).value, Split(s[2..]);
    var y := x.(authority := x.authority % TWO_48);
    ParseOfBinary(x);
    PartsBackExactly(parts);
    if Canonical(s) {
      assert y == x && Parts(x) == parts;
      JoinOfSplit(s[2..]);
      assert s == s[..2] + s[2..];
    } else if Text(y) == s {
      ParseOfText(y);
      SplitOfText(y);
    }
  }

  /** The two limits are real: a 49-bit authority comes back as zero, and 256 subauthorities do not come back. */
  lemma LimitsAreReal()
    ensures var wide, long := Text(Sid(1, TWO_48, [0])), Text(Sid(1, 5, seq(256, i => 0)));
            && Encode(wide).Some? && Decode(Encode(wide).value) == Some(Text(Sid(1, 0, [0]))) != Some(wide)
            && Encode(long).Some? && Decode(Encode(long).value) == None
  {
    hide Text, Parse, Binary, ParseBinary;
    var wide, long := Sid(1, TWO_48, [0]), Sid(1, 5, seq(256, i => 0));
    ParseOfText(wide);
    ParseOfBinary(wide);
    if Text(wide) == Text(Sid(1, 0, [0])) {
      TextInjective(wide, Sid(1, 0, [0]));
    }
    ParseOfText(long);
    ParseOfBinary(long);
  }

  // ----- The loops of the source -----

  method EncodeSid(s: string) returns (r: Option<seq<byte>>)
    ensures r == Encode(s)
  {
    hide Parse, Words, BigEndian;
    var parsed := Parse(s);
    if parsed.None? {
      return None;
    }
    var x := parsed.value;
    var out: seq<byte> := [x.revision, |x.subauthorities| % 256] + BigEndian(x.authority, 8)[2..];
    ghost var head := out;
    var i := 0;
    assert Words([]) == [] && x.subauthorities[..0] == [] by { NoWords(); }
    while i < |x.subauthorities|
      invariant 0 <= i <= |x.subauthorities|
      invariant out == head + Words(x.subauthorities[..i])
    {
      WordsThen(x.subauthorities[..i], x.subauthorities[i]);
      assert x.subauthorities[..i + 1] == x.subauthorities[..i] + [x.subauthorities[i]];
      out, i := out + Bytes32(x.subauthorities[i]), i + 1;
    }
    assert x.subauthorities[..i] == x.subauthorities;
    return Some(out);
  }

  lemma NoWords()
    ensures Words([]) == []
  {
  }

  lemma {:induction false} WordsThen(numbers: seq<u32>, last: u32)
    ensures Words(numbers + [last]) == Words(numbers) + Bytes32(last)
  {
    hide Bytes32;
    if numbers == [] {
      NoWords();
      assert [last][1..] == [];
    } else {
      assert (numbers + [last])[1..] == numbers[1..] + [last];
      WordsThen(numbers[1..], last);
    }
  }

  method DecodeSid(b: seq<byte>) returns (r: Option<string>)
    ensures r == Decode(b)
  {
    hide Join, Parts, ReadWords, FromBigEndian, Le32;
    if |b| < 8 || |b| != 8 + 4 * (b[1] as int) {
      return None;
    }
    var count := b[1] as int;
    ghost var x := ParseBinary(b).value;
    var out := "S-" + Decimal.Print(b[0]) + "-" + Decimal.Print(FromBigEndian(b[2..8]));
    TextStarts(x.(subauthorities := x.subauthorities[..0]));
    for i := 0 to count
      invariant out == Text(x.(subauthorities := x.subauthorities[..i]))
    {
      WordAt(b, 8, count, i);
      TextThen(x.(subauthorities := x.subauthorities[..i]), x.subauthorities[i]);
      assert x.subauthorities[..i + 1] == x.subauthorities[..i] + [x.subauthorities[i]];
      out := out + "-" + Decimal.Print(Le32(b, 8 + 4 * i));
    }
    assert x.subauthorities[..count] == x.subauthorities;
    return Some(out);
  }

  lemma TextStarts(x: Sid)
    requires x.subauthorities == []
    ensures Text(x) == "S-" + Decimal.Print(x.revision) + "-" + Decimal.Print(x.authority)
  {
    hide Decimal.Print;
    assert Parts(x) == [Decimal.Print(x.revision), Decimal.Print(x.authority)];
    assert Join(Parts(x)[1..]) == Decimal.Print(x.authority);
  }

  lemma TextThen(x: Sid, last: u32)
    ensures Text(x.(subauthorities := x.subauthorities + [last])) == Text(x) + "-" + Decimal.Print(last)
  {
    hide Decimal.Print, Join;
    var y := x.(subauthorities := x.subauthorities + [last]);
    assert Parts(y) == Parts(x) + [Decimal.Print(last)];
    JoinThen(Parts(x), Decimal.Print(last));
  }

  lemma {:induction false} JoinThen(parts: seq<string>, last: string)
    requires parts != []
    ensures Join(parts + [last]) == Join(parts) + "-" + last
  {
    if |parts| == 1 {
      assert (parts + [last])[1..] == [last];
    } else {
      assert (parts + [last])[1..] == parts[1..] + [last];
      JoinThen(parts[1..], last);
    }
  }

  lemma {:induction false} WordAt(b: seq<byte>, at: nat, count: nat, i: nat)
    requires at + 4 * count <= |b| && i < count
    ensures ReadWords(b, at, count)[i] == Le32(b, at + 4 * i)
    decreases i
  {
    hide Le32;
    if i > 0 {
      WordAt(b, at + 4, count - 1, i - 1);
    }
  }
}
