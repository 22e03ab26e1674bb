/** File-backed sections of a PE image and reads through them. */
module Sections {
  import opened Wrappers
  import opened Bytes

  datatype Section = Section(virtualAddress: u32, rawPointer: u32, rawSize: u32)

  datatype ReadError = RangeOverflow | NotBacked | Truncated

  function SaturatingAdd(a: u32, b: u32): (sum: u32)
    ensures sum == a + b || (sum == TWO_32 - 1 && a + b >= TWO_32)
  {
    if a + b < TWO_32 then a + b else TWO_32 - 1
  }

  predicate Backs(section: Section, rva: u32, end: u32) {
    section.virtualAddress <= rva && end <= SaturatingAdd(section.virtualAddress, section.rawSize)
  }

  /** The first section that backs the range, if there is one. */
  function FindSection(sections: seq<Section>, rva: u32, end: u32): (r: Option<Section>)
    ensures r.Some? ==> Backs(r.value, rva, end) && r.value in sections
    ensures r.None? <==> forall s | s in sections :: !Backs(s, rva, end)
  {
    if sections == [] then None
    else if Backs(sections[0], rva, end) then Some(sections[0])
    else FindSection(sections[1..], rva, end)
  }

  /** The file bytes behind `size` bytes of image at `rva`. */
  function ReadAt(bytes: seq<byte>, sections: seq<Section>, rva: u32, size: u32): (r: Result<seq<byte>, ReadError>)
    ensures r.Ok? ==> |r.value| == size && rva + size < TWO_32
  {
    if rva + size >= TWO_32 then Err(RangeOverflow)
    else
      match FindSection(sections, rva, rva + size)
      case None => Err(NotBacked)
      case Some(section) =>
        var start := section.rawPointer + (rva - section.virtualAddress);
        if start + size > |bytes| then Err(Truncated) else Ok(bytes[start..start + size])
  }

  function ReadU32At(bytes: seq<byte>, sections: seq<Section>, rva: u32): Result<u32, ReadError> {
    match ReadAt(bytes, sections, rva, 4)
    case Err(e) => Err(e)
    case Ok(data) => Ok(Le32(data, 0))
  }
}
