/** The cursor loops that read an ARM64X dynamic relocation table. */
module RelocationParser {
  import opened Wrappers
  import opened Bytes
  import opened Relocations
  import Sections

  /** One turn of the inner loop: the fixup whose first word is `index`. */
  method ReadFixup(block: seq<byte>, index: usize, page: u32) returns (r: Result<(Relocation, nat), Error>)
    requires 8 <= |block| <= MAX_SLICE && |block| % 4 == 0 && page % 0x1000 == 0
    requires index < (|block| - 8) / 2
    ensures r == ParseFixup(Words(block[8..]), index, page)
  {
    var words: usize := (|block| - 8) / 2;
    WordAt(block, index);
    var raw: int := Le16(block, 8 + index * 2);
    var fixup, arg := raw / 0x1000 % 4, raw / 0x4000;
    var rva: u32 := page + raw % 0x1000;
    if fixup == 0 {
      var size := Size(arg);
      if rva % size != 0 {
        return Err(UnalignedZeroFill);
      }
      return Ok((Relocation(rva, size, 0, ZeroFill), 1));
    } else if fixup == 1 {
      if arg == 0 {
        return Err(ValueSizeZero);
      }
      var size := Size(arg);
      var needed: usize := 1 + size / 2;
      if index + needed > words {
        return Err(ValueTruncated);
      }
      if rva % size != 0 {
        return Err(UnalignedValue);
      }
      PayloadAt(block, index, size);
      var at: usize := 8 + (index + 1) * 2;
      var value: u64 := if size == 2 then Le16(block, at) else if size == 4 then Le32(block, at) else Le64(block, at);
      return Ok((Relocation(rva, size, value, Value), needed));
    } else if fixup == 2 {
      if index + 2 > words {
        return Err(DeltaTruncated);
      }
      WordAt(block, index + 1);
      var magnitude: int := Le16(block, 8 + (index + 1) * 2);
      var scale := if arg >= 2 then 8 else 4;
      if rva % 4 != 0 {
        return Err(UnalignedDelta);
      }
      return Ok((Relocation(rva, 4, TwosComplement(arg % 2 != 0, magnitude * scale), Delta), 2));
    }
    return Err(InvalidType);
  }

  /**
  The inner loop over one block's fixup words.
  `block` starts with the eight bytes of its own header.
  */
  method ParseBlock(block: seq<byte>, page: u32, image: u32) returns (r: Result<seq<Relocation>, Error>)
    requires 8 <= |block| <= MAX_SLICE && |block| % 4 == 0 && page % 0x1000 == 0
    ensures r == ParseWords(Words(block[8..]), 0, page, image)
  {
    ghost var w := Words(block[8..]);
    var words: usize := (|block| - 8) / 2;
    var index: usize := 0;
    var entries := [];
    while index < words
      invariant index <= words
      invariant ParseWords(w, 0, page, image) == Resume(entries, ParseWords(w, index, page, image))
    {
      WordAt(block, index);
      if Le16(block, 8 + index * 2) == 0 {
        break;
      }
      var fixup := ReadFixup(block, index, page);
      if fixup.Err? {
        return Err(fixup.error);
      }
      var (entry, taken) := fixup.value;
      if !InImage(entry.rva, image) {
        return Err(TargetExceedsImage);
      }
      ResumeTwice(entries, [entry], ParseWords(w, index + taken, page, image));
      entries := entries + [entry];
      index := index + taken;
    }
    return Ok(entries);
  }

  lemma WordAt(block: seq<byte>, index: nat)
    requires 8 + 2 * index + 2 <= |block|
    ensures Words(block[8..])[index] == Le16(block, 8 + index * 2)
  {
  }

  lemma PayloadAt(block: seq<byte>, index: nat, size: nat)
    requires size == 2 || size == 4 || size == 8
    requires 8 + 2 * (index + 1 + size / 2) <= |block|
    ensures Payload(Words(block[8..]), index, size) ==
            var at := 8 + (index + 1) * 2;
            if size == 2 then Le16(block, at) else if size == 4 then Le32(block, at) else Le64(block, at)
  {
    WordAt(block, index + 1);
    if size >= 4 { WordAt(block, index + 2); }
    if size == 8 { WordAt(block, index + 3); WordAt(block, index + 4); }
  }

  /** The loop over page blocks. */
  method ParseRelocationBlocks(data: seq<byte>, image: u32) returns (r: Result<seq<Block>, Error>)
    requires |data| <= MAX_SLICE
    ensures r == ParseBlocks(data, 0, image)
  {
    hide Resume, BlockAt, ParseWords, Words;
    var blocks := [];
    var cursor: usize := 0;
    while cursor < |data|
      invariant cursor < |data| + 4
      invariant ParseBlocks(data, 0, image) == Resume(blocks, ParseBlocks(data, cursor, image))
      decreases |data| - cursor
    {
      var header := BlockAt(data, cursor);
      if header.Err? {
        return Err(header.error);
      }
      if header.value.None? {
        break;
      }
      var (page, size) := header.value.value;
      var block := data[cursor..cursor + size];
      assert block[8..] == data[cursor + 8..cursor + size];
      var entries := ParseBlock(block, page, image);
      if entries.Err? {
        return Err(entries.error);
      }
      ResumeTwice(blocks, [Block(page, entries.value)], ParseBlocks(data, Align4(cursor + size), image));
      blocks := blocks + [Block(page, entries.value)];
      cursor := Align4(cursor + size);
    }
    return Ok(blocks);
  }

  /** The loop over records, for both table versions. */
  method ParseTableRecords(version: u32, records: seq<byte>, image: u32) returns (r: Result<seq<Block>, Error>)
    requires version == 1 || version == 2
    requires |records| <= MAX_SLICE
    ensures r == ParseRecords(version, records, 0, image)
  {
    var cursor: usize := 0;
    var blocks := [];
    while cursor < |records|
      invariant cursor < |records| + 4
      invariant ParseRecords(version, records, 0, image) ==
                Resume(blocks, ParseRecords(version, records, cursor, image))
      decreases |records| - cursor
    {
      var header := RecordAt(version, records, cursor);
      if header.Err? {
        return Err(header.error);
      }
      var record := header.value;
      if record.symbol == ARM64X_SYMBOL {
        var more := ParseRelocationBlocks(records[record.start..record.end], image);
        if more.Err? {
          return Err(more.error);
        }
        ResumeTwice(blocks, more.value, ParseRecords(version, records, record.next, image));
        blocks := blocks + more.value;
      }
      cursor := record.next;
    }
    return Ok(blocks);
  }

  /** The meaning of a table found through the section list. */
  function ParseDynamic(bytes: seq<byte>, sections: seq<Sections.Section>, tableRva: u32, tableSize: u32, image: u32)
    : Result<seq<Block>, Error>
  {
    if tableRva == 0 then Err(NullTable)
    else if tableSize < 8 then Err(TableTruncated)
    else
      match Sections.ReadAt(bytes, sections, tableRva, tableSize)
      case Err(_) => Err(TableTruncated)
      case Ok(table) => ParseTable(table, image)
  }

  method ParseDynamicRelocations(bytes: seq<byte>, sections: seq<Sections.Section>, tableRva: u32, tableSize: u32,
                                 image: u32)
    returns (r: Result<seq<Block>, Error>)
    requires |bytes| <= MAX_SLICE
    ensures r == ParseDynamic(bytes, sections, tableRva, tableSize, image)
  {
    if tableRva == 0 {
      return Err(NullTable);
    }
    if tableSize < 8 {
      return Err(TableTruncated);
    }
    var found := Sections.ReadAt(bytes, sections, tableRva, tableSize);
    if found.Err? {
      return Err(TableTruncated);
    }
    var table := found.value;
    var version, size := Le32(table, 0), Le32(table, 4);
    if version != 1 && version != 2 {
      return Err(UnsupportedVersion);
    }
    if size > |table| - 8 {
      return Err(TableExceedsDirectory);
    }
    r := ParseTableRecords(version, table[8..8 + size], image);
  }
}
