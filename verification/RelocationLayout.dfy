/**
The writer side of the ARM64X fixup format, and the proof that reading is its
inverse: every valid layout is read back exactly, and everything the reader
accepts is the meaning of a valid layout.
*/
module RelocationLayout {
  import opened Wrappers
  import opened Bytes
  import opened Relocations

  /** A fixup as a linker encodes it: `log` is the base-2 logarithm of its size. */
  datatype Fixup =
    | Zero(offset: nat, log: nat)
    | Store(offset: nat, log: nat, value: u64)
    | Shift(offset: nat, negative: bool, eights: bool, count: u16)

  datatype Page = Page(rva: u32, fixups: seq<Fixup>)

  // ----- What a fixup means -----

  function Entry(f: Fixup, page: u32): Relocation
    requires Encodable(f) && page % 0x1000 == 0
  {
    var rva := page + f.offset;
    match f
    case Zero(_, log) => Relocation(rva, Size(log), 0, ZeroFill)
    case Store(_, log, value) => Relocation(rva, Size(log), value, Value)
    case Shift(_, negative, eights, count) =>
      Relocation(rva, 4, TwosComplement(negative, count as int * (if eights then 8 else 4)), Delta)
  }

  /** The field widths of the format. */
  predicate Encodable(f: Fixup) {
    f.offset < 0x1000 &&
    match f
    case Zero(_, log) => log <= 3
    case Store(_, log, value) =>
      1 <= log <= 3 && (log == 1 ==> value < TWO_16) && (log == 2 ==> value < TWO_32)
    case Shift(_, _, _, _) => true
  }

  /**
  What the loader demands of a fixup. The one-byte zero fill of the first byte
  of a page is encoded as the terminating zero word, so it cannot be written.
  */
  predicate Valid(f: Fixup, page: u32, image: u32)
    requires page % 0x1000 == 0
  {
    Encodable(f) && !(f.Zero? && f.offset == 0 && f.log == 0) &&
    Entry(f, page).rva % Entry(f, page).size == 0 && InImage(Entry(f, page).rva, image)
  }

  predicate AllEncodable(fs: seq<Fixup>) {
    forall i | 0 <= i < |fs| :: Encodable(fs[i])
  }

  predicate AllValid(fs: seq<Fixup>, page: u32, image: u32): (b: bool)
    requires page % 0x1000 == 0
    ensures b ==> AllEncodable(fs)
  {
    forall i | 0 <= i < |fs| :: Valid(fs[i], page, image)
  }

  function Entries(fs: seq<Fixup>, page: u32): (es: seq<Relocation>)
    requires page % 0x1000 == 0 && AllEncodable(fs)
    ensures |es| == |fs|
  {
    if fs == [] then [] else [Entry(fs[0], page)] + Entries(fs[1..], page)
  }

  // ----- How a fixup is written -----

  // The four 16-bit pieces of a value, lowest first.

  function Piece0(v: u64): u16 {
    v % TWO_16
  }

  function Piece1(v: u64): u16 {
    v / TWO_16 % TWO_16
  }

  function Piece2(v: u64): u16 {
    v / TWO_32 % TWO_16
  }

  function Piece3(v: u64): u16 {
    v / TWO_32 / TWO_16
  }

  function Joined(a: u16, b: u16, c: u16, d: u16): u64 {
    a as int + TWO_16 * b as int + TWO_32 * (c as int + TWO_16 * d as int)
  }

  lemma PiecesJoin(v: u64)
    ensures Joined(Piece0(v), Piece1(v), Piece2(v), Piece3(v)) == v
    ensures v < TWO_16 ==> Piece0(v) == v
    ensures v < TWO_32 ==> Piece0(v) + TWO_16 * Piece1(v) == v
  {
    assert v / TWO_16 / TWO_16 == v / TWO_32;
  }

  lemma PiecesOf(a: u16, b: u16, c: u16, d: u16)
    ensures Piece0(Joined(a, b, c, d)) == a && Piece1(Joined(a, b, c, d)) == b
    ensures Piece2(Joined(a, b, c, d)) == c && Piece3(Joined(a, b, c, d)) == d
  {
    var v, high := Joined(a, b, c, d), c as int + TWO_16 * d as int;
    assert v / TWO_16 == b as int + TWO_16 * high;
    assert v / TWO_32 == high;
  }

  function FixupWords(f: Fixup): (w: seq<u16>)
    requires Encodable(f)
    ensures |w| >= 1
  {
    match f
    case Zero(offset, log) => [offset + log * 0x4000]
    case Store(offset, log, value) =>
      [offset + 0x1000 + log * 0x4000, Piece0(value)] +
      (if log == 1 then []
       else [Piece1(value)] + if log == 2 then [] else [Piece2(value), Piece3(value)])
    case Shift(offset, negative, eights, count) =>
      [offset + 0x2000 + (if eights then 0x8000 else 0) + (if negative then 0x4000 else 0), count]
  }

  function AllWords(fs: seq<Fixup>): seq<u16>
    requires AllEncodable(fs)
  {
    if fs == [] then [] else FixupWords(fs[0]) + AllWords(fs[1..])
  }

  /** Zero padding to a multiple of four bytes. */
  function PaddedWords(fs: seq<Fixup>): (w: seq<u16>)
    requires AllEncodable(fs)
    ensures |w| == 2 * DoubleWords(fs)
  {
    var w := AllWords(fs);
    if |w| % 2 == 0 then w else w + [0]
  }

  function DoubleWords(fs: seq<Fixup>): nat
    requires AllEncodable(fs)
  {
    (|AllWords(fs)| + 1) / 2
  }

  function WordBytes(w: seq<u16>): (b: seq<byte>)
    ensures |b| == 2 * |w|
  {
    if w == [] then [] else Bytes16(w[0]) + WordBytes(w[1..])
  }

  predicate ValidPage(p: Page, image: u32) {
    p.rva % 0x1000 == 0 && AllValid(p.fixups, p.rva, image) &&
    8 + 4 * DoubleWords(p.fixups) < TWO_32
  }

  function PageSize(p: Page, image: u32): (size: u32)
    requires ValidPage(p, image)
    ensures size >= 8
  {
    8 + 4 * DoubleWords(p.fixups)
  }

  function PageBytes(p: Page, image: u32): (b: seq<byte>)
    requires ValidPage(p, image)
    ensures |b| == PageSize(p, image)
  {
    Bytes32(p.rva) + Bytes32(PageSize(p, image)) + WordBytes(PaddedWords(p.fixups))
  }

  predicate ValidPages(ps: seq<Page>, image: u32) {
    forall i | 0 <= i < |ps| :: ValidPage(ps[i], image)
  }

  function PagesBytes(ps: seq<Page>, image: u32): seq<byte>
    requires ValidPages(ps, image)
  {
    if ps == [] then [] else PageBytes(ps[0], image) + PagesBytes(ps[1..], image)
  }

  function BlockOf(p: Page, image: u32): Block
    requires ValidPage(p, image)
  {
    Block(p.rva, Entries(p.fixups, p.rva))
  }

  function BlocksOf(ps: seq<Page>, image: u32): (bs: seq<Block>)
    requires ValidPages(ps, image)
    ensures |bs| == |ps|
  {
    if ps == [] then [] else [BlockOf(ps[0], image)] + BlocksOf(ps[1..], image)
  }

  // ----- Reading inverts writing -----

  /** The first word of a fixup holds its offset, its kind and its argument. */
  lemma FirstWord(f: Fixup)
    requires Encodable(f)
    ensures var raw: int := FixupWords(f)[0];
            raw % 0x1000 == f.offset &&
            raw / 0x1000 % 4 == (if f.Zero? then 0 else if f.Store? then 1 else 2) &&
            raw / 0x4000 == (if f.Shift? then (if f.eights then 2 else 0) + (if f.negative then 1 else 0) else f.log)
  {
  }

  lemma PayloadReadBack(f: Fixup, w: seq<u16>, i: nat)
    requires f.Store? && Encodable(f)
    requires i + |FixupWords(f)| <= |w| && w[i..i + |FixupWords(f)|] == FixupWords(f)
    ensures |FixupWords(f)| == 1 + Size(f.log) / 2
    ensures Payload(w, i, Size(f.log)) == f.value
  {
    hide Piece0, Piece1, Piece2, Piece3;
    PiecesJoin(f.value);
    var x := FixupWords(f);
    var slice := w[i..i + |x|];
    assert w[i + 1] == slice[1] == x[1];
    if f.log >= 2 { assert w[i + 2] == slice[2] == x[2]; }
    if f.log == 3 { assert w[i + 3] == slice[3] == x[3] && w[i + 4] == slice[4] == x[4]; }
  }

  lemma FixupReadBack(f: Fixup, w: seq<u16>, i: nat, page: u32, image: u32)
    requires page % 0x1000 == 0 && Valid(f, page, image)
    requires i + |FixupWords(f)| <= |w| && w[i..i + |FixupWords(f)|] == FixupWords(f)
    ensures w[i] != 0
    ensures ParseFixup(w, i, page) == Ok((Entry(f, page), |FixupWords(f)|))
  {
    var x := FixupWords(f);
    assert w[i] == w[i..i + |x|][0];
    FirstWord(f);
    match f
    case Zero(_, _) =>
    case Store(_, _, _) => PayloadReadBack(f, w, i);
    case Shift(_, _, _, count) => assert w[i + 1] == w[i..i + |x|][1] == count;
  }

  /** A fixup list followed by the end of the block or by a zero word. */
  lemma {:induction false} WordsReadBack(fs: seq<Fixup>, w: seq<u16>, i: nat, page: u32, image: u32)
    requires page % 0x1000 == 0 && AllValid(fs, page, image)
    requires i + |AllWords(fs)| <= |w| && w[i..i + |AllWords(fs)|] == AllWords(fs)
    requires i + |AllWords(fs)| == |w| || w[i + |AllWords(fs)|] == 0
    ensures ParseWords(w, i, page, image) == Ok(Entries(fs, page))
  {
    hide Encodable, Valid, FixupWords, ParseFixup, InImage;
    if fs == [] {
      return;
    }
    var x := FixupWords(fs[0]);
    HeadAndTail(fs, w, i);
    FixupReadBack(fs[0], w, i, page, image);
    WordsReadBack(fs[1..], w, i + |x|, page, image);
    EntryInImage(fs[0], page, image);
  }

  lemma HeadAndTail(fs: seq<Fixup>, w: seq<u16>, i: nat)
    requires fs != [] && AllEncodable(fs)
    requires i + |AllWords(fs)| <= |w| && w[i..i + |AllWords(fs)|] == AllWords(fs)
    ensures var j, end := i + |FixupWords(fs[0])|, i + |AllWords(fs)|;
            && j + |AllWords(fs[1..])| == end
            && w[i..j] == FixupWords(fs[0]) && w[j..end] == AllWords(fs[1..])
  {
    hide Encodable, FixupWords;
    var x, all := FixupWords(fs[0]), AllWords(fs);
    SliceOfSlice(w, i, i + |all|, 0, |x|);
    SliceOfSlice(w, i, i + |all|, |x|, |all|);
    assert all[0..|x|] == x && all[|x|..|all|] == AllWords(fs[1..]);
  }

  lemma EntryInImage(f: Fixup, page: u32, image: u32)
    requires page % 0x1000 == 0 && Valid(f, page, image)
    ensures InImage(Entry(f, page).rva, image)
  {
  }

  lemma {:induction false} WordsOfBytes(w: seq<u16>)
    ensures Words(WordBytes(w)) == w
  {
    var b := WordBytes(w);
    forall i | 0 <= i < |w|
      ensures Words(b)[i] == w[i]
    {
      WordOfBytes(w, i);
    }
  }

  lemma {:induction false} WordOfBytes(w: seq<u16>, i: nat)
    requires i < |w|
    ensures Le16(WordBytes(w), 2 * i) == w[i]
  {
    var b, tail := WordBytes(w), WordBytes(w[1..]);
    if i > 0 {
      WordOfBytes(w[1..], i - 1);
      assert b[2 * i] == tail[2 * (i - 1)] && b[2 * i + 1] == tail[2 * (i - 1) + 1];
    }
  }

  lemma PageReadBack(p: Page, data: seq<byte>, cursor: nat, image: u32)
    requires ValidPage(p, image)
    requires cursor + PageSize(p, image) <= |data|
    requires data[cursor..cursor + PageSize(p, image)] == PageBytes(p, image)
    ensures BlockAt(data, cursor) == Ok(Some((p.rva, PageSize(p, image))))
    ensures ParseWords(Words(data[cursor + 8..cursor + PageSize(p, image)]), 0, p.rva, image) ==
            Ok(Entries(p.fixups, p.rva))
  {
    PageHeaderReadBack(p, data, cursor, image);
    hide *;
    var w, end := PaddedWords(p.fixups), cursor + PageSize(p, image);
    assert data[cursor + 8..end] == data[cursor..end][8..];
    PageBody(p, image);
    WordsOfBytes(w);
    PaddedReadBack(p, image);
  }

  lemma PageHeaderReadBack(p: Page, data: seq<byte>, cursor: nat, image: u32)
    requires ValidPage(p, image)
    requires cursor + PageSize(p, image) <= |data|
    requires data[cursor..cursor + PageSize(p, image)] == PageBytes(p, image)
    ensures BlockAt(data, cursor) == Ok(Some((p.rva, PageSize(p, image))))
  {
    hide AllValid, AllEncodable, WordBytes, PaddedWords, DoubleWords, Le32, Bytes32, AllZero;
    TwoWords(data, cursor, p.rva, PageSize(p, image), WordBytes(PaddedWords(p.fixups)));
  }

  lemma TwoWords(data: seq<byte>, cursor: nat, a: u32, b: u32, rest: seq<byte>)
    requires cursor + 8 + |rest| <= |data| && data[cursor..cursor + 8 + |rest|] == Bytes32(a) + Bytes32(b) + rest
    ensures Le32(data, cursor) == a && Le32(data, cursor + 4) == b
  {
    hide Le32, Bytes32;
    var all, end := Bytes32(a) + Bytes32(b) + rest, cursor + 8 + |rest|;
    assert all[0..4] == Bytes32(a) && all[4..8] == Bytes32(b);
    SliceOfSlice(data, cursor, end, 0, 4);
    SliceOfSlice(data, cursor, end, 4, 8);
    ReadBack32(data, cursor, a);
    ReadBack32(data, cursor + 4, b);
  }

  lemma PageBody(p: Page, image: u32)
    requires ValidPage(p, image)
    ensures PageBytes(p, image)[8..] == WordBytes(PaddedWords(p.fixups))
  {
  }

  lemma PaddedReadBack(p: Page, image: u32)
    requires ValidPage(p, image)
    ensures ParseWords(PaddedWords(p.fixups), 0, p.rva, image) == Ok(Entries(p.fixups, p.rva))
  {
    hide ParseWords, Entries, AllEncodable;
    var w := PaddedWords(p.fixups);
    assert w[0..|AllWords(p.fixups)|] == AllWords(p.fixups);
    WordsReadBack(p.fixups, w, 0, p.rva, image);
  }

  lemma AlignedStaysAligned(cursor: nat, p: Page, image: u32)
    requires cursor % 4 == 0 && ValidPage(p, image)
    ensures (cursor + PageSize(p, image)) % 4 == 0
    ensures Align4(cursor + PageSize(p, image)) == cursor + PageSize(p, image)
  {
  }

  /**
  Every list of valid pages, with any amount of zero padding after it, is read
  back exactly: the same pages, in order, with the same entries in order.
  */
  lemma {:induction false} PagesReadBack(ps: seq<Page>, data: seq<byte>, cursor: nat, image: u32)
    requires ValidPages(ps, image)
    requires cursor % 4 == 0 && cursor + |PagesBytes(ps, image)| <= |data|
    requires data[cursor..cursor + |PagesBytes(ps, image)|] == PagesBytes(ps, image)
    requires AllZero(data[cursor + |PagesBytes(ps, image)|..])
    ensures ParseBlocks(data, cursor, image) == Ok(BlocksOf(ps, image))
  {
    hide ValidPage, PageBytes, PageSize, ParseWords, BlockAt, Align4, AllZero;
    var all := PagesBytes(ps, image);
    if ps == [] {
      if cursor < |data| {
        NoBlockInZeros(data, cursor);
      }
    } else {
      var page, rest := PageBytes(ps[0], image), PagesBytes(ps[1..], image);
      var next := cursor + |page|;
      assert all == page + rest && |page| == PageSize(ps[0], image);
      Parted(data, cursor, page, rest);
      PageReadBack(ps[0], data, cursor, image);
      AlignedStaysAligned(cursor, ps[0], image);
      PagesReadBack(ps[1..], data, next, image);
    }
  }

  lemma NoBlockInZeros(data: seq<byte>, cursor: nat)
    requires cursor < |data| && AllZero(data[cursor..])
    ensures BlockAt(data, cursor) == Ok(None)
  {
    if cursor + 8 <= |data| {
      ZeroHeader(data, cursor);
    }
  }

  lemma ZeroHeader(data: seq<byte>, cursor: nat)
    requires cursor + 8 <= |data| && AllZero(data[cursor..])
    ensures Le32(data, cursor) == 0 && Le32(data, cursor + 4) == 0
  {
    assert forall k | 0 <= k < |data| - cursor :: data[cursor..][k] == data[cursor + k] == 0;
    assert data[cursor..cursor + 4] == Bytes32(0) && data[cursor + 4..cursor + 8] == Bytes32(0);
    ReadBack32(data, cursor, 0);
    ReadBack32(data, cursor + 4, 0);
  }

  /** The round trip in one statement. */
  lemma LayoutRoundTrip(ps: seq<Page>, image: u32, padding: nat)
    requires ValidPages(ps, image)
    ensures ParseBlocks(PagesBytes(ps, image) + Zeros(padding), 0, image) == Ok(BlocksOf(ps, image))
  {
    var data := PagesBytes(ps, image) + Zeros(padding);
    assert data[..|PagesBytes(ps, image)|] == PagesBytes(ps, image);
    assert data[|PagesBytes(ps, image)|..] == Zeros(padding);
    PagesReadBack(ps, data, 0, image);
  }

  // ----- The one fixup that cannot be written -----

  /** Everything the loader demands, except that the fixup is not the terminator. */
  predicate Acceptable(f: Fixup, page: u32, image: u32)
    requires page % 0x1000 == 0
  {
    Encodable(f) && Entry(f, page).rva % Entry(f, page).size == 0 && InImage(Entry(f, page).rva, image)
  }

  lemma {:induction false} WordsOfConcat(a: seq<Fixup>, b: seq<Fixup>)
    requires AllEncodable(a) && AllEncodable(b)
    ensures AllEncodable(a + b) && AllWords(a + b) == AllWords(a) + AllWords(b)
  {
    hide Encodable, FixupWords;
    if a == [] {
      assert a + b == b;
    } else {
      assert (a + b)[1..] == a[1..] + b;
      WordsOfConcat(a[1..], b);
    }
  }

  predicate AllAcceptable(fs: seq<Fixup>, page: u32, image: u32): (b: bool)
    requires page % 0x1000 == 0
    ensures b ==> AllEncodable(fs)
  {
    forall i | 0 <= i < |fs| :: Acceptable(fs[i], page, image)
  }

  lemma AcceptableIsValid(fs: seq<Fixup>, page: u32, image: u32)
    requires page % 0x1000 == 0 && AllAcceptable(fs, page, image) && Zero(0, 0) !in fs
    ensures AllValid(fs, page, image)
  {
    forall i | 0 <= i < |fs|
      ensures Valid(fs[i], page, image)
    {
      assert fs[i] in fs && Acceptable(fs[i], page, image);
    }
  }

  /**
  A list of acceptable fixups is read back exactly when it does not hold the
  one-byte zero fill of a page's first byte.
  */
  lemma ReadBackExactlyWithoutTerminator(fs: seq<Fixup>, page: u32, image: u32)
    requires page % 0x1000 == 0 && AllAcceptable(fs, page, image)
    ensures ParseWords(AllWords(fs), 0, page, image) == Ok(Entries(fs, page)) <==> Zero(0, 0) !in fs
  {
    hide Acceptable, AllEncodable, AllValid, FixupWords, ParseWords, Entry;
    var w := AllWords(fs);
    if Zero(0, 0) !in fs {
      assert w[0..|w|] == w;
      AcceptableIsValid(fs, page, image);
      WordsReadBack(fs, w, 0, page, image);
    } else {
      var k := FirstTerminator(fs);
      var before, after := fs[..k], fs[k..];
      assert before + after == fs;
      assert AllAcceptable(before, page, image) && AllAcceptable(after, page, image);
      WordsOfConcat(before, after);
      TerminatorIsZero(after);
      AcceptableIsValid(before, page, image);
      assert w[0..|AllWords(before)|] == AllWords(before);
      WordsReadBack(before, w, 0, page, image);
    }
  }

  lemma {:induction false} FirstTerminator(fs: seq<Fixup>) returns (k: nat)
    requires Zero(0, 0) in fs
    ensures k < |fs| && fs[k] == Zero(0, 0) && Zero(0, 0) !in fs[..k]
  {
    if fs[0] == Zero(0, 0) {
      k := 0;
    } else {
      k := FirstTerminator(fs[1..]);
      assert fs[..k + 1] == [fs[0]] + fs[1..][..k];
      k := k + 1;
    }
  }

  lemma TerminatorIsZero(fs: seq<Fixup>)
    requires AllEncodable(fs) && fs != [] && fs[0] == Zero(0, 0)
    ensures |AllWords(fs)| >= 1 && AllWords(fs)[0] == 0
  {
  }

  // ----- Only layouts are accepted -----

  /** The fixup that a word sequence the reader accepts was written for. */
  lemma FixupIsEncoded(w: seq<u16>, i: nat, page: u32, image: u32) returns (f: Fixup)
    requires i < |w| && w[i] != 0 && page % 0x1000 == 0
    requires ParseFixup(w, i, page).Ok? && InImage(ParseFixup(w, i, page).value.0.rva, image)
    ensures Encodable(f) && Valid(f, page, image)
    ensures ParseFixup(w, i, page).value == (Entry(f, page), |FixupWords(f)|)
    ensures i + |FixupWords(f)| <= |w| && w[i..i + |FixupWords(f)|] == FixupWords(f)
  {
    hide FixupWords, Payload;
    var raw: int := w[i];
    var kind, arg, offset := raw / 0x1000 % 4, raw / 0x4000, raw % 0x1000;
    RawWord(raw);
    if kind == 0 {
      f := ZeroAt(w, i, offset, arg);
    } else if kind == 1 {
      f := StoreAt(w, i, offset, arg);
    } else {
      f := ShiftAt(w, i, offset, arg);
    }
  }

  lemma RawWord(raw: u16)
    ensures raw as int == raw % 0x1000 + (raw / 0x1000 % 4) * 0x1000 + raw / 0x4000 * 0x4000
  {
  }

  lemma ZeroAt(w: seq<u16>, i: nat, offset: nat, log: nat) returns (f: Fixup)
    requires log <= 3 && offset < 0x1000 && i < |w|
    requires w[i] == offset + log * 0x4000
    ensures f == Zero(offset, log) && Encodable(f)
    ensures |FixupWords(f)| == 1 && w[i..i + 1] == FixupWords(f)
  {
    f := Zero(offset, log);
  }

  lemma ShiftAt(w: seq<u16>, i: nat, offset: nat, arg: nat) returns (f: Fixup)
    requires arg <= 3 && offset < 0x1000 && i + 2 <= |w|
    requires w[i] == offset + 0x2000 + arg * 0x4000
    ensures f == Shift(offset, arg % 2 != 0, arg >= 2, w[i + 1]) && Encodable(f)
    ensures |FixupWords(f)| == 2 && w[i..i + 2] == FixupWords(f)
  {
    f := Shift(offset, arg % 2 != 0, arg >= 2, w[i + 1]);
  }

  lemma StoreAt(w: seq<u16>, i: nat, offset: nat, log: nat) returns (f: Fixup)
    requires 1 <= log <= 3 && offset < 0x1000 && i + 1 + Size(log) / 2 <= |w|
    requires w[i] == offset + 0x1000 + log * 0x4000
    ensures f == Store(offset, log, Payload(w, i, Size(log))) && Encodable(f)
    ensures |FixupWords(f)| == 1 + Size(log) / 2
    ensures w[i..i + |FixupWords(f)|] == FixupWords(f)
  {
    hide Piece0, Piece1, Piece2, Piece3;
    f := Store(offset, log, Payload(w, i, Size(log)));
    var a, b := w[i + 1], if log >= 2 then w[i + 2] else 0;
    var c, d := if log == 3 then w[i + 3] else 0, if log == 3 then w[i + 4] else 0;
    assert f.value == Joined(a, b, c, d);
    PiecesOf(a, b, c, d);
  }

  /**
  Everything a block accepts is a list of valid fixups followed by the end of
  the block or a zero word: with `WordsReadBack`, exactly those words are accepted.
  */
  lemma {:induction false} WordsAreEncoded(w: seq<u16>, i: nat, page: u32, image: u32) returns (fs: seq<Fixup>)
    requires i <= |w| && page % 0x1000 == 0 && ParseWords(w, i, page, image).Ok?
    ensures AllValid(fs, page, image)
    ensures ParseWords(w, i, page, image) == Ok(Entries(fs, page))
    ensures i + |AllWords(fs)| <= |w| && w[i..i + |AllWords(fs)|] == AllWords(fs)
    ensures i + |AllWords(fs)| == |w| || w[i + |AllWords(fs)|] == 0
    decreases |w| - i
  {
    hide Encodable, Valid, FixupWords, ParseFixup, InImage, Entry;
    if i == |w| || w[i] == 0 {
      return [];
    }
    var f := FixupIsEncoded(w, i, page, image);
    var j := i + |FixupWords(f)|;
    var rest := WordsAreEncoded(w, j, page, image);
    fs := [f] + rest;
    assert fs[1..] == rest;
    assert w[i..i + |AllWords(fs)|] == w[i..j] + w[j..j + |AllWords(rest)|];
  }

  lemma BlockIsLayout(data: seq<byte>, cursor: nat, image: u32) returns (p: Page)
    requires cursor < |data| && BlockAt(data, cursor).Ok? && BlockAt(data, cursor).value.Some?
    requires var (page, size) := BlockAt(data, cursor).value.value;
             ParseWords(Words(data[cursor + 8..cursor + size]), 0, page, image).Ok?
    ensures ValidPage(p, image)
    ensures var (page, size) := BlockAt(data, cursor).value.value;
            page == p.rva &&
            ParseWords(Words(data[cursor + 8..cursor + size]), 0, page, image) == Ok(BlockOf(p, image).entries)
  {
    hide AllEncodable, AllValid, ParseWords, Entries, AllWords, BlockAt;
    var (page, size) := BlockAt(data, cursor).value.value;
    var w := Words(data[cursor + 8..cursor + size]);
    var fs := WordsAreEncoded(w, 0, page, image);
    p := Page(page, fs);
  }

  /** Whatever the reader accepts has a valid layout, and that layout reads the same. */
  lemma {:induction false} AcceptedIsLayout(data: seq<byte>, cursor: nat, image: u32) returns (ps: seq<Page>)
    requires ParseBlocks(data, cursor, image).Ok?
    ensures ValidPages(ps, image)
    ensures ParseBlocks(data, cursor, image) == Ok(BlocksOf(ps, image))
    ensures ParseBlocks(PagesBytes(ps, image), 0, image) == ParseBlocks(data, cursor, image)
    decreases |data| - cursor
  {
    hide ValidPage, ParseWords, PageBytes, BlockAt, BlockOf;
    ps := [];
    if cursor < |data| && BlockAt(data, cursor).value.Some? {
      var p := BlockIsLayout(data, cursor, image);
      var (page, size) := BlockAt(data, cursor).value.value;
      var rest := AcceptedIsLayout(data, Align4(cursor + size), image);
      ps := [p] + rest;
      assert ps[1..] == rest;
      BlockOfPage(p, image);
    }
    LayoutRoundTrip(ps, image, 0);
    assert PagesBytes(ps, image) + Zeros(0) == PagesBytes(ps, image);
  }

  lemma BlockOfPage(p: Page, image: u32)
    requires ValidPage(p, image)
    ensures BlockOf(p, image).page == p.rva
  {
  }
}
