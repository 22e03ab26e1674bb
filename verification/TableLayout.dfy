/**
Whole relocation tables of both versions: any mix of ARM64X records and
records of other symbols is read back as exactly the ARM64X pages, in order.
*/
module TableLayout {
  import opened Wrappers
  import opened Bytes
  import opened Relocations
  import opened RelocationLayout

  datatype Content = Arm64X(pages: seq<Page>) | Foreign(symbol: u32, raw: seq<byte>)

  /** `extra` is the rest of the record header: four bytes in version 1, eight or more in version 2. */
  datatype Item = Item(content: Content, extra: seq<byte>)

  predicate ValidItem(version: nat, item: Item, image: u32) {
    && (match item.content
        case Arm64X(pages) => ValidPages(pages, image)
        case Foreign(symbol, _) => symbol != ARM64X_SYMBOL)
    && |Body(item, image)| < TWO_32
    && (version == 1 ==> |item.extra| == 4)
    && (version == 2 ==> 8 <= |item.extra| && 12 + |item.extra| < TWO_32)
  }

  function Symbol(item: Item): u32 {
    if item.content.Arm64X? then ARM64X_SYMBOL else item.content.symbol
  }

  function Body(item: Item, image: u32): seq<byte>
    requires item.content.Arm64X? ==> ValidPages(item.content.pages, image)
  {
    match item.content
    case Arm64X(pages) => PagesBytes(pages, image)
    case Foreign(_, raw) => raw
  }

  function HeaderBytes(version: nat, item: Item, image: u32): (b: seq<byte>)
    requires (version == 1 || version == 2) && ValidItem(version, item, image)
    ensures |b| == if version == 1 then 12 else 12 + |item.extra|
  {
    var size := Bytes32(|Body(item, image)|);
    if version == 1 then Bytes32(Symbol(item)) + item.extra + size
    else Bytes32(12 + |item.extra|) + size + Bytes32(Symbol(item)) + item.extra
  }

  function Padding(version: nat, body: seq<byte>): nat {
    if version == 1 then Align4(|body|) - |body| else 0
  }

  function ItemBytes(version: nat, item: Item, image: u32): (b: seq<byte>)
    requires (version == 1 || version == 2) && ValidItem(version, item, image)
  {
    var body := Body(item, image);
    HeaderBytes(version, item, image) + body + Zeros(Padding(version, body))
  }

  predicate ValidItems(version: nat, items: seq<Item>, image: u32) {
    forall i | 0 <= i < |items| :: ValidItem(version, items[i], image)
  }

  function ItemsBytes(version: nat, items: seq<Item>, image: u32): seq<byte>
    requires (version == 1 || version == 2) && ValidItems(version, items, image)
  {
    if items == [] then [] else ItemBytes(version, items[0], image) + ItemsBytes(version, items[1..], image)
  }

  /** The blocks a list of records stands for: those of its ARM64X records. */
  function ItemsBlocks(version: nat, items: seq<Item>, image: u32): seq<Block>
    requires ValidItems(version, items, image)
  {
    if items == [] then []
    else
      (if items[0].content.Arm64X? then BlocksOf(items[0].content.pages, image) else []) +
      ItemsBlocks(version, items[1..], image)
  }

  /** A record header read back, wherever the record stands. */
  lemma HeaderReadBack(version: nat, item: Item, image: u32, records: seq<byte>, cursor: nat)
    requires (version == 1 || version == 2) && ValidItem(version, item, image)
    requires version == 1 ==> cursor % 4 == 0
    requires cursor + |ItemBytes(version, item, image)| <= |records|
    requires records[cursor..cursor + |ItemBytes(version, item, image)|] == ItemBytes(version, item, image)
    ensures var start := cursor + |HeaderBytes(version, item, image)|;
            var end := start + |Body(item, image)|;
            && RecordAt(version, records, cursor) ==
               Ok(Record(Symbol(item), start, end, cursor + |ItemBytes(version, item, image)|))
            && records[start..end] == Body(item, image)
  {
    hide HeaderBytes, Body, RecordAt, ValidPages;
    var head, body := HeaderBytes(version, item, image), Body(item, image);
    var all := ItemBytes(version, item, image);
    assert all[..|head|] == head && all[|head|..|head| + |body|] == body;
    SliceOfSlice(records, cursor, cursor + |all|, 0, |head|);
    SliceOfSlice(records, cursor, cursor + |all|, |head|, |head| + |body|);
    HeaderFields(version, item, image, records, cursor);
  }

  lemma HeaderFields(version: nat, item: Item, image: u32, records: seq<byte>, cursor: nat)
    requires (version == 1 || version == 2) && ValidItem(version, item, image)
    requires version == 1 ==> cursor % 4 == 0
    requires cursor + |ItemBytes(version, item, image)| <= |records|
    requires records[cursor..cursor + |HeaderBytes(version, item, image)|] == HeaderBytes(version, item, image)
    ensures var start := cursor + |HeaderBytes(version, item, image)|;
            RecordAt(version, records, cursor) ==
            Ok(Record(Symbol(item), start, start + |Body(item, image)|, cursor + |ItemBytes(version, item, image)|))
  {
    hide Le32, Bytes32, Body, Symbol, ValidPages, RecordAt, HeaderBytes, Align4;
    if version == 1 {
      HeaderFields1(item, image, records, cursor);
    } else {
      HeaderFields2(item, image, records, cursor);
    }
  }

  lemma HeaderFields1(item: Item, image: u32, records: seq<byte>, cursor: nat)
    requires ValidItem(1, item, image) && cursor % 4 == 0
    requires cursor + |ItemBytes(1, item, image)| <= |records|
    requires records[cursor..cursor + 12] == HeaderBytes(1, item, image)
    ensures RecordAt(1, records, cursor) ==
            Ok(Record(Symbol(item), cursor + 12, cursor + 12 + |Body(item, image)|,
                      cursor + |ItemBytes(1, item, image)|))
  {
    hide Le32, Bytes32, Body, Symbol, ValidPages;
    var head, size := HeaderBytes(1, item, image), |Body(item, image)|;
    assert head[..4] == Bytes32(Symbol(item)) && head[8..12] == Bytes32(size);
    WordIn(records, cursor, head, 0, Symbol(item));
    WordIn(records, cursor, head, 8, size);
  }

  lemma HeaderFields2(item: Item, image: u32, records: seq<byte>, cursor: nat)
    requires ValidItem(2, item, image)
    requires cursor + |ItemBytes(2, item, image)| <= |records|
    requires records[cursor..cursor + |HeaderBytes(2, item, image)|] == HeaderBytes(2, item, image)
    ensures var start := cursor + |HeaderBytes(2, item, image)|;
            RecordAt(2, records, cursor) ==
            Ok(Record(Symbol(item), start, start + |Body(item, image)|, cursor + |ItemBytes(2, item, image)|))
  {
    hide Le32, Bytes32, Body, Symbol, ValidPages;
    var head, size := HeaderBytes(2, item, image), |Body(item, image)|;
    assert head[..4] == Bytes32(12 + |item.extra|) && head[4..8] == Bytes32(size);
    assert head[8..12] == Bytes32(Symbol(item));
    WordIn(records, cursor, head, 0, 12 + |item.extra|);
    WordIn(records, cursor, head, 4, size);
    WordIn(records, cursor, head, 8, Symbol(item));
  }

  lemma WordIn(records: seq<byte>, cursor: nat, head: seq<byte>, offset: nat, n: u32)
    requires cursor + |head| <= |records| && records[cursor..cursor + |head|] == head
    requires offset + 4 <= |head| && head[offset..offset + 4] == Bytes32(n)
    ensures Le32(records, cursor + offset) == n
  {
    SliceOfSlice(records, cursor, cursor + |head|, offset, offset + 4);
    ReadBack32(records, cursor + offset, n);
  }

  lemma BodyReadBack(item: Item, version: nat, image: u32)
    requires item.content.Arm64X? && ValidItem(version, item, image)
    ensures ParseBlocks(Body(item, image), 0, image) == Ok(BlocksOf(item.content.pages, image))
  {
    LayoutRoundTrip(item.content.pages, image, 0);
    assert PagesBytes(item.content.pages, image) + Zeros(0) == PagesBytes(item.content.pages, image);
  }

  lemma {:induction false} RecordsReadBack(version: nat, items: seq<Item>, image: u32, records: seq<byte>, cursor: nat)
    requires (version == 1 || version == 2) && ValidItems(version, items, image)
    requires version == 1 ==> cursor % 4 == 0
    requires cursor <= |records| && records[cursor..] == ItemsBytes(version, items, image)
    ensures ParseRecords(version, records, cursor, image) == Ok(ItemsBlocks(version, items, image))
  {
    hide ValidItem, ItemBytes, HeaderBytes, Body, RecordAt, ParseBlocks, BlocksOf;
    if items == [] {
      return;
    }
    var item, rest := items[0], items[1..];
    var bytes := ItemBytes(version, item, image);
    var next := cursor + |bytes|;
    Divide(records, cursor, bytes, ItemsBytes(version, rest, image));
    HeaderReadBack(version, item, image, records, cursor);
    NextAligned(version, item, image, cursor);
    ItemNotEmpty(version, item, image);
    RecordsReadBack(version, rest, image, records, next);
    if item.content.Arm64X? {
      BodyReadBack(item, version, image);
    } else {
      ForeignSymbol(version, item, image);
      assert [] + ItemsBlocks(version, rest, image) == ItemsBlocks(version, rest, image);
    }
  }

  lemma Divide(records: seq<byte>, cursor: nat, head: seq<byte>, tail: seq<byte>)
    requires cursor <= |records| && records[cursor..] == head + tail
    ensures cursor + |head| <= |records|
    ensures records[cursor..cursor + |head|] == head && records[cursor + |head|..] == tail
  {
    var all := records[cursor..];
    assert |all| == |head| + |tail|;
    assert records[cursor..cursor + |head|] == all[..|head|];
    assert records[cursor + |head|..] == all[|head|..];
  }

  lemma NextAligned(version: nat, item: Item, image: u32, cursor: nat)
    requires (version == 1 || version == 2) && ValidItem(version, item, image)
    requires version == 1 ==> cursor % 4 == 0
    ensures version == 1 ==> (cursor + |ItemBytes(version, item, image)|) % 4 == 0
  {
  }

  lemma ItemNotEmpty(version: nat, item: Item, image: u32)
    requires (version == 1 || version == 2) && ValidItem(version, item, image)
    ensures |ItemBytes(version, item, image)| >= 12
  {
  }

  lemma ForeignSymbol(version: nat, item: Item, image: u32)
    requires ValidItem(version, item, image)
    ensures Symbol(item) == ARM64X_SYMBOL <==> item.content.Arm64X?
  {
  }

  function TableBytes(version: nat, items: seq<Item>, image: u32, tail: seq<byte>): (b: seq<byte>)
    requires (version == 1 || version == 2) && ValidItems(version, items, image)
    requires |ItemsBytes(version, items, image)| < TWO_32
    ensures |b| >= 8
  {
    var records := ItemsBytes(version, items, image);
    Bytes32(version) + Bytes32(|records|) + records + tail
  }

  /** Whole tables of either version, with anything after the declared size. */
  lemma TableRoundTrip(version: nat, items: seq<Item>, image: u32, tail: seq<byte>)
    requires (version == 1 || version == 2) && ValidItems(version, items, image)
    requires |ItemsBytes(version, items, image)| < TWO_32
    ensures ParseTable(TableBytes(version, items, image, tail), image) == Ok(ItemsBlocks(version, items, image))
  {
    hide Le32, Bytes32, ValidItems, ItemsBytes, ItemsBlocks, ParseRecords;
    var table, records := TableBytes(version, items, image, tail), ItemsBytes(version, items, image);
    assert table[0..4] == Bytes32(version) && table[4..8] == Bytes32(|records|);
    ReadBack32(table, 0, version);
    ReadBack32(table, 4, |records|);
    assert table[8..8 + |records|] == records && records[0..] == records;
    RecordsReadBack(version, items, image, records, 0);
  }

  // ----- Alignment -----

  /** The next record starts where this one ends, exactly in version 2 or after an aligned end. */
  lemma NextIsEndExactly(version: nat, records: seq<byte>, cursor: nat)
    requires (version == 1 || version == 2) && cursor < |records| && RecordAt(version, records, cursor).Ok?
    ensures var r := RecordAt(version, records, cursor).value;
            r.next == r.end <==> version == 2 || r.end % 4 == 0
  {
    hide Le32;
  }

  /** So one-byte bodies tell the versions apart: only version 1 skips to the next multiple of four. */
  lemma OneByteBodies(image: u32)
    ensures var one, two := Item(Foreign(1, [7]), Zeros(4)), Item(Foreign(1, [7]), Zeros(8));
            && ValidItem(1, one, image) && ValidItem(2, two, image)
            && RecordAt(1, ItemBytes(1, one, image), 0) == Ok(Record(1, 12, 13, 16))
            && RecordAt(2, ItemBytes(2, two, image), 0) == Ok(Record(1, 20, 21, 21))
  {
    var one, two := Item(Foreign(1, [7]), Zeros(4)), Item(Foreign(1, [7]), Zeros(8));
    assert ValidItem(1, one, image) && ValidItem(2, two, image);
    var a, b := ItemBytes(1, one, image), ItemBytes(2, two, image);
    assert |a| == 16 && |b| == 21;
    assert a[0..0 + |a|] == a && b[0..0 + |b|] == b;
    hide ItemBytes, RecordAt;
    HeaderReadBack(1, one, image, a, 0);
    HeaderReadBack(2, two, image, b, 0);
  }
}
