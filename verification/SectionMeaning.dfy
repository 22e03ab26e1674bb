/** Reads through the section table against the image that a loader makes of the file. */
module SectionMeaning {
  import opened Wrappers
  import opened Bytes
  import opened Sections

  /** The raw data of a section is in the image at the section's address. */
  predicate Copied(image: seq<byte>, bytes: seq<byte>, s: Section) {
    forall x | s.virtualAddress <= x < s.virtualAddress + s.rawSize && x < |image| &&
               s.rawPointer + (x - s.virtualAddress) < |bytes| ::
      image[x] == bytes[s.rawPointer + (x - s.virtualAddress)]
  }

  predicate Loaded(image: seq<byte>, bytes: seq<byte>, sections: seq<Section>) {
    forall s | s in sections :: Copied(image, bytes, s)
  }

  /** A section whose raw data spans the range, the file's length aside. */
  predicate Spans(s: Section, rva: nat, size: nat) {
    s.virtualAddress <= rva && rva + size <= s.virtualAddress + s.rawSize
  }

  lemma SpansExactly(s: Section, rva: u32, size: u32)
    requires rva + size < TWO_32
    ensures Backs(s, rva, rva + size) <==> Spans(s, rva, size)
  {
  }

  /** The first section that spans a range: position `i`. */
  predicate FirstSpan(sections: seq<Section>, rva: nat, size: nat, i: nat) {
    i < |sections| && Spans(sections[i], rva, size) && forall j | 0 <= j < i :: !Spans(sections[j], rva, size)
  }

  lemma {:induction false} FindsFirst(sections: seq<Section>, rva: u32, size: u32, i: nat)
    requires rva + size < TWO_32 && FirstSpan(sections, rva, size, i)
    ensures FindSection(sections, rva, rva + size) == Some(sections[i])
    decreases i
  {
    hide Spans, Backs;
    SpansExactly(sections[0], rva, size);
    if i > 0 {
      assert sections[1..][i - 1] == sections[i];
      assert forall j | 0 <= j < i - 1 :: sections[1..][j] == sections[j + 1];
      FindsFirst(sections[1..], rva, size, i - 1);
    }
  }

  lemma {:induction false} SomeFirst(sections: seq<Section>, rva: u32, size: u32) returns (i: nat)
    requires rva + size < TWO_32 && FindSection(sections, rva, rva + size).Some?
    ensures FirstSpan(sections, rva, size, i)
  {
    hide Spans, Backs;
    SpansExactly(sections[0], rva, size);
    if Backs(sections[0], rva, rva + size) {
      i := 0;
    } else {
      i := SomeFirst(sections[1..], rva, size);
      i := i + 1;
      assert forall j | 0 < j < i :: sections[j] == sections[1..][j - 1];
    }
  }

  /** The data behind a range when section `i` is the first to span it and the file is long enough. */
  predicate Holds(bytes: seq<byte>, s: Section, rva: nat, data: seq<byte>) {
    var start := s.rawPointer + rva - s.virtualAddress;
    0 <= start && start + |data| <= |bytes| && bytes[start..start + |data|] == data
  }

  /**
  A read answers exactly the file bytes as far into the raw data of the first
  section that spans the range as the range is into the section.
  */
  lemma ReadExactly(bytes: seq<byte>, sections: seq<Section>, rva: u32, size: u32, data: seq<byte>)
    ensures ReadAt(bytes, sections, rva, size) == Ok(data) <==>
            && rva + size < TWO_32 && |data| == size
            && exists i: nat :: FirstSpan(sections, rva, size, i) && Holds(bytes, sections[i], rva, data)
  {
    hide FindSection, Spans;
    if rva + size < TWO_32 {
      if FindSection(sections, rva, rva + size).Some? {
        var i := SomeFirst(sections, rva, size);
        FindsFirst(sections, rva, size, i);
        SpansExactly(sections[i], rva, size);
      }
      forall i: nat | FirstSpan(sections, rva, size, i)
        ensures FindSection(sections, rva, rva + size) == Some(sections[i])
        ensures sections[i].virtualAddress <= rva
      {
        FindsFirst(sections, rva, size, i);
        SpansExactly(sections[i], rva, size);
      }
    }
  }

  /** In particular it answers what a loaded image holds there. */
  lemma ReadIsLoaded(image: seq<byte>, bytes: seq<byte>, sections: seq<Section>, rva: u32, size: u32)
    requires Loaded(image, bytes, sections) && rva + size <= |image| && ReadAt(bytes, sections, rva, size).Ok?
    ensures ReadAt(bytes, sections, rva, size).value == image[rva..rva + size]
  {
    var data := ReadAt(bytes, sections, rva, size).value;
    ReadExactly(bytes, sections, rva, size, data);
    var i: nat :| FirstSpan(sections, rva, size, i) && Holds(bytes, sections[i], rva, data);
    var s := sections[i];
    assert s in sections && Copied(image, bytes, s);
    var start := s.rawPointer + rva - s.virtualAddress;
    forall k | 0 <= k < size
      ensures data[k] == image[rva + k]
    {
      assert data[k] == bytes[start..start + size][k] == bytes[start + k];
      assert image[rva + k] == bytes[s.rawPointer + (rva + k - s.virtualAddress)];
    }
  }

  lemma WordIsLoaded(image: seq<byte>, bytes: seq<byte>, sections: seq<Section>, rva: u32)
    requires Loaded(image, bytes, sections) && rva + 4 <= |image| && ReadU32At(bytes, sections, rva).Ok?
    ensures ReadU32At(bytes, sections, rva).value == Le32(image, rva)
  {
    hide ReadAt;
    ReadIsLoaded(image, bytes, sections, rva, 4);
    var data := ReadAt(bytes, sections, rva, 4).value;
    assert data[0..4] == data;
    SameBytesSameWord(data, 0, image, rva);
  }
}
