/**
The ARM64X dynamic value relocation table: what its bytes mean.

A table holds records; an ARM64X record holds page blocks; a block holds
16-bit fixup words of variable length, ended by a zero word or by the block.
`ParseWords`, `ParseBlocks` and `ParseRecords` are the meaning of the three
levels; the loops that compute it are in `RelocationParser`.
*/
module Relocations {
  import opened Wrappers
  import opened Bytes

  const ARM64X_SYMBOL: u32 := 6

  datatype Kind = ZeroFill | Value | Delta

  /** One patch: `value` is the two's complement of a `Delta`. */
  datatype Relocation = Relocation(rva: u32, size: nat, value: u64, kind: Kind)

  datatype Block = Block(page: u32, entries: seq<Relocation>)

  datatype Error =
    | NullTable
    | TableTruncated
    | UnsupportedVersion
    | TableExceedsDirectory
    | RecordTruncated
    | RecordHeaderMalformed
    | FixupExceedsTable
    | BlockTruncated
    | BlockExceedsBounds
    | BlockUnaligned
    | PageUnaligned
    | UnalignedZeroFill
    | ValueSizeZero
    | ValueTruncated
    | UnalignedValue
    | DeltaTruncated
    | UnalignedDelta
    | InvalidType
    | TargetExceedsImage

  // ----- Fixup words -----

  /** The size `1 << arg` of a fixup. */
  function Size(arg: nat): (size: nat)
    requires arg <= 3
    ensures size == 1 || size == 2 || size == 4 || size == 8
  {
    if arg == 0 then 1 else if arg == 1 then 2 else if arg == 2 then 4 else 8
  }

  /** The payload of a value fixup whose first word is at `i`. */
  function Payload(w: seq<u16>, i: nat, size: nat): u64
    requires size == 2 || size == 4 || size == 8
    requires i + 1 + size / 2 <= |w|
  {
    if size == 2 then w[i + 1]
    else if size == 4 then w[i + 1] as int + TWO_16 * w[i + 2] as int
    else w[i + 1] as int + TWO_16 * w[i + 2] as int + TWO_32 * (w[i + 3] as int + TWO_16 * w[i + 4] as int)
  }

  /** A signed delta as the 64-bit pattern that stores it. */
  function TwosComplement(negative: bool, magnitude: nat): u64
    requires magnitude < TWO_64
  {
    if negative && magnitude > 0 then TWO_64 - magnitude else magnitude
  }

  /** One fixup, and the number of words it takes. */
  function ParseFixup(w: seq<u16>, i: nat, page: u32): Result<(Relocation, nat), Error>
    requires i < |w| && page % 0x1000 == 0
  {
    var raw: int := w[i];
    var kind, arg, rva: int := raw / 0x1000 % 4, raw / 0x4000, page + raw % 0x1000;
    if kind == 0 then
      if rva % Size(arg) != 0 then Err(UnalignedZeroFill)
      else Ok((Relocation(rva, Size(arg), 0, ZeroFill), 1))
    else if kind == 1 then
      if arg == 0 then Err(ValueSizeZero)
      else if i + 1 + Size(arg) / 2 > |w| then Err(ValueTruncated)
      else if rva % Size(arg) != 0 then Err(UnalignedValue)
      else Ok((Relocation(rva, Size(arg), Payload(w, i, Size(arg)), Value), 1 + Size(arg) / 2))
    else if kind == 2 then
      if i + 2 > |w| then Err(DeltaTruncated)
      else if rva % 4 != 0 then Err(UnalignedDelta)
      else
        var scale := if arg >= 2 then 8 else 4;
        Ok((Relocation(rva, 4, TwosComplement(arg % 2 != 0, w[i + 1] as int * scale), Delta), 2))
    else Err(InvalidType)
  }

  /** The bound the parser checks after every fixup, whatever its size. */
  predicate InImage(rva: u32, image: u32) {
    rva < image && (if rva + 4 < TWO_32 then rva + 4 else TWO_32 - 1) <= image
  }

  function ParseWords(w: seq<u16>, i: nat, page: u32, image: u32): Result<seq<Relocation>, Error>
    requires page % 0x1000 == 0
    decreases |w| - i
  {
    if i >= |w| || w[i] == 0 then Ok([])
    else
      match ParseFixup(w, i, page)
      case Err(e) => Err(e)
      case Ok((entry, taken)) =>
        if !InImage(entry.rva, image) then Err(TargetExceedsImage)
        else Resume([entry], ParseWords(w, i + taken, page, image))
  }

  // ----- Page blocks -----

  function Words(b: seq<byte>): (w: seq<u16>)
    ensures |w| == |b| / 2
    ensures forall i | 0 <= i < |w| :: w[i] == Le16(b, 2 * i)
  {
    seq(|b| / 2, i requires 0 <= i < |b| / 2 => Le16(b, 2 * i))
  }

  /** The page and size of the block at `cursor`; `None` where the blocks end. */
  function BlockAt(data: seq<byte>, cursor: nat): (r: Result<Option<(u32, u32)>, Error>)
    requires cursor < |data|
    ensures r.Ok? && r.value.Some? ==>
              var (page, size) := r.value.value;
              page % 0x1000 == 0 && 8 <= size && size % 4 == 0 && cursor + size <= |data|
  {
    if |data| - cursor < 8 then
      if AllZero(data[cursor..]) then Ok(None) else Err(BlockTruncated)
    else
      var page, size := Le32(data, cursor), Le32(data, cursor + 4);
      if page == 0 && size == 0 then Ok(None)
      else if size < 8 || size > |data| - cursor then Err(BlockExceedsBounds)
      else if size % 4 != 0 then Err(BlockUnaligned)
      else if page % 0x1000 != 0 then Err(PageUnaligned)
      else Ok(Some((page, size)))
  }

  function ParseBlocks(data: seq<byte>, cursor: nat, image: u32): Result<seq<Block>, Error>
    decreases |data| - cursor
  {
    if cursor >= |data| then Ok([])
    else
      match BlockAt(data, cursor)
      case Err(e) => Err(e)
      case Ok(None) => Ok([])
      case Ok(Some((page, size))) =>
        match ParseWords(Words(data[cursor + 8..cursor + size]), 0, page, image)
        case Err(e) => Err(e)
        case Ok(entries) => Resume([Block(page, entries)], ParseBlocks(data, Align4(cursor + size), image))
  }

  // ----- Records -----

  function RecordHeader(version: nat): nat {
    if version == 1 then 12 else 20
  }

  /** One record: its symbol, its fixup bytes as a range, and where the next record starts. */
  datatype Record = Record(symbol: u32, start: nat, end: nat, next: nat)

  /** Version 1 re-aligns the cursor after every record; version 2 does not. */
  function RecordAt(version: nat, records: seq<byte>, cursor: nat): (r: Result<Record, Error>)
    requires version == 1 || version == 2
    requires cursor < |records|
    ensures r.Ok? ==>
              cursor < r.value.start <= r.value.end <= |records| && r.value.end <= r.value.next < r.value.end + 4
  {
    if |records| - cursor < RecordHeader(version) then Err(RecordTruncated)
    else if version == 1 then
      var symbol, fixup := Le32(records, cursor), Le32(records, cursor + 8);
      if fixup > |records| - cursor - 12 then Err(FixupExceedsTable)
      else Ok(Record(symbol, cursor + 12, cursor + 12 + fixup, Align4(cursor + 12 + fixup)))
    else
      var header, fixup, symbol := Le32(records, cursor), Le32(records, cursor + 4), Le32(records, cursor + 8);
      if header < 20 || header > |records| - cursor then Err(RecordHeaderMalformed)
      else if fixup > |records| - (cursor + header) then Err(FixupExceedsTable)
      else Ok(Record(symbol, cursor + header, cursor + header + fixup, cursor + header + fixup))
  }

  function ParseRecords(version: nat, records: seq<byte>, cursor: nat, image: u32): Result<seq<Block>, Error>
    requires version == 1 || version == 2
    decreases |records| - cursor
  {
    if cursor >= |records| then Ok([])
    else
      match RecordAt(version, records, cursor)
      case Err(e) => Err(e)
      case Ok(record) =>
        if record.symbol != ARM64X_SYMBOL then ParseRecords(version, records, record.next, image)
        else
          match ParseBlocks(records[record.start..record.end], 0, image)
          case Err(e) => Err(e)
          case Ok(blocks) => Resume(blocks, ParseRecords(version, records, record.next, image))
  }

  /** A table: version, record size, records. */
  function ParseTable(table: seq<byte>, image: u32): Result<seq<Block>, Error>
    requires |table| >= 8
  {
    var version, size := Le32(table, 0), Le32(table, 4);
    if version != 1 && version != 2 then Err(UnsupportedVersion)
    else if size > |table| - 8 then Err(TableExceedsDirectory)
    else ParseRecords(version, table[8..8 + size], 0, image)
  }
}
