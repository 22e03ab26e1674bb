/**
Entry thunks against the machine code and metadata that a compiler writes: the
two x64 forms, the metadata word, and the file that the image was loaded from.
*/
module ThunkMeaning {
  import opened Wrappers
  import opened Bytes
  import Sections
  import opened SectionMeaning
  import opened ThunkSearch

  // ----- Signed words -----

  /** The signed number that a word stands for, by what makes it unique. */
  predicate StandsFor(word: u32, n: int) {
    -0x8000_0000 <= n < 0x8000_0000 && (n == word || n == word - TWO_32)
  }

  lemma SignedExactly(word: u32, n: int)
    ensures Signed32(word) == n <==> StandsFor(word, n)
  {
  }

  /** A metadata word that a compiler writes for a distance. */
  function MetadataWord(distance: int, tag: nat): u32
    requires distance % 4 == 0 && -0x8000_0000 <= distance < 0x8000_0000 && tag < 4
  {
    (if distance >= 0 then distance else distance + TWO_32) + tag
  }

  /** Every metadata word is the word of one distance, a signed multiple of four, with a tag in its two low bits. */
  lemma DeltaExactly(word: u32)
    ensures Delta(word) % 4 == 0 && -0x8000_0000 <= Delta(word) < 0x8000_0000
    ensures MetadataWord(Delta(word), word % 4) == word
  {
  }

  lemma MetadataReadBack(distance: int, tag: nat)
    requires distance % 4 == 0 && -0x8000_0000 <= distance < 0x8000_0000 && tag < 4
    ensures Delta(MetadataWord(distance, tag)) == distance
  {
    var masked := MetadataWord(distance, tag) - tag;
    TagOf(masked, tag);
  }

  lemma TagOf(masked: int, tag: nat)
    requires masked % 4 == 0 && tag < 4
    ensures (masked + tag) % 4 == tag
  {
  }

  /**
  A function whose metadata word stands before it in the file leads to the thunk
  at its distance: nowhere for distance zero, and refused outside the image.
  */
  lemma EntryThunkExactly(bytes: seq<byte>, sections: seq<Sections.Section>, body: u32, image: u32, distance: int,
                          tag: nat)
    requires distance % 4 == 0 && -0x8000_0000 <= distance < 0x8000_0000 && tag < 4 && body >= 4
    requires Sections.ReadU32At(bytes, sections, body - 4) == Ok(MetadataWord(distance, tag))
    ensures EntryThunk(bytes, sections, body, image) ==
            if distance == 0 then Ok(None)
            else if 0 <= body + distance < image then Ok(Some(body + distance))
            else Err(ThunkOutsideImage)
  {
    hide Sections.ReadU32At, Delta;
    MetadataReadBack(distance, tag);
  }

  /** Other reads fail: too close to the base, or no word there. */
  lemma EntryThunkFails(bytes: seq<byte>, sections: seq<Sections.Section>, body: u32, image: u32)
    ensures body < 4 ==> EntryThunk(bytes, sections, body, image) == Err(TooCloseToBase)
    ensures body >= 4 && Sections.ReadU32At(bytes, sections, body - 4).Err? ==>
              EntryThunk(bytes, sections, body, image) == Err(MetadataTruncated)
  {
  }

  // ----- The two x64 forms -----

  /** `mov rax, target; jmp rax`. */
  function StubCode(target: u64): (code: seq<byte>)
    ensures |code| == 12
  {
    [0x48, 0xb8] + Bytes64(target) + [0xff, 0xe0]
  }

  /** `mov rax, rsp; mov [rax + 20h], rbx; push rbp; pop rbp; jmp distance`. */
  function ForwardCode(distance: int): (code: seq<byte>)
    requires -0x8000_0000 <= distance < 0x8000_0000
    ensures |code| == 14
  {
    [0x48, 0x8b, 0xc4, 0x48, 0x89, 0x58, 0x20, 0x55, 0x5d, 0xe9] +
    Bytes32(if distance >= 0 then distance else distance + TWO_32)
  }

  /** The code stands at an address, inside the image and inside what is mapped. */
  predicate CodeAt(mapped: seq<byte>, rva: u32, image: u32, code: seq<byte>) {
    rva + |code| <= image && rva + |code| <= |mapped| && mapped[rva..rva + |code|] == code
  }

  lemma StubAt(mapped: seq<byte>, rva: u32, image: u32, target: u64)
    ensures CodeAt(mapped, rva, image, StubCode(target)) <==>
            EntryStubAt(mapped, rva, image) && Le64(mapped, rva + 2) == target
  {
    hide Bytes64, Le64;
    if rva + 12 <= image && rva + 12 <= |mapped| {
      var here := mapped[rva..rva + 12];
      SliceOfSlice(mapped, rva, rva + 12, 2, 10);
      WriteBack64(mapped, rva + 2);
      assert here == here[..2] + here[2..10] + here[10..];
      assert here[..2] == [mapped[rva], mapped[rva + 1]] && here[10..] == [mapped[rva + 10], mapped[rva + 11]];
      if here == StubCode(target) {
        assert StubCode(target)[2..10] == Bytes64(target);
        ReadBack64(mapped, rva + 2, target);
      }
    }
  }

  lemma ForwardAt(mapped: seq<byte>, rva: u32, image: u32, distance: int)
    requires -0x8000_0000 <= distance < 0x8000_0000
    ensures CodeAt(mapped, rva, image, ForwardCode(distance)) <==>
            FastForwardAt(mapped, rva, image) && Signed32(Le32(mapped, rva + 10)) == distance
  {
    hide Bytes32, Le32;
    var word := if distance >= 0 then distance else distance + TWO_32;
    if rva + 14 <= image && rva + 14 <= |mapped| {
      var here := mapped[rva..rva + 14];
      assert here == here[..10] + here[10..] && here[..10] == mapped[rva..rva + 10];
      assert here[10..] == mapped[rva + 10..rva + 14];
      WriteBack32(mapped, rva + 10);
      if here == ForwardCode(distance) {
        assert ForwardCode(distance)[10..] == Bytes32(word) && ForwardCode(distance)[..10] == FAST_FORWARD;
        ReadBack32(mapped, rva + 10, word);
      }
    }
  }

  /** A stub leads where its immediate points, relative to the image base, or is refused. */
  lemma StubRoute(mapped: seq<byte>, base: u64, rva: u32, image: u32, target: u64)
    requires CodeAt(mapped, rva, image, StubCode(target))
    ensures X64Form(mapped, base, rva, image) ==
            Some(if base + image >= TWO_64 then Err(AddressOverflow)
                 else if base <= target < base + image then Ok(Route(X64EntryStub, target - base))
                 else Err(StubOutsideImage))
  {
    hide EntryStubAt, FastForwardAt, Le64, StubCode;
    StubAt(mapped, rva, image, target);
  }

  /** A fast-forward sequence leads as far past its end as its displacement says, or is refused. */
  lemma ForwardRoute(mapped: seq<byte>, base: u64, rva: u32, image: u32, distance: int)
    requires -0x8000_0000 <= distance < 0x8000_0000 && CodeAt(mapped, rva, image, ForwardCode(distance))
    ensures X64Form(mapped, base, rva, image) ==
            Some(if 0 <= rva + 14 + distance < image then Ok(Route(X64FastForward, rva + 14 + distance))
                 else Err(FastForwardOutsideImage))
  {
    hide FastForwardAt, Le32, Signed32;
    ForwardAt(mapped, rva, image, distance);
    NotBoth(mapped, rva, image);
  }

  lemma NotBoth(mapped: seq<byte>, rva: u32, image: u32)
    ensures FastForwardAt(mapped, rva, image) ==> !EntryStubAt(mapped, rva, image)
  {
    if FastForwardAt(mapped, rva, image) {
      assert mapped[rva + 1] == mapped[rva..rva + 10][1];
    }
  }

  /** And there is no other form. */
  lemma OnlyForms(mapped: seq<byte>, base: u64, rva: u32, image: u32)
    requires X64Form(mapped, base, rva, image).Some?
    ensures (exists target: u64 :: CodeAt(mapped, rva, image, StubCode(target))) ||
            exists distance: int :: -0x8000_0000 <= distance < 0x8000_0000 &&
                                    CodeAt(mapped, rva, image, ForwardCode(distance))
  {
    hide EntryStubAt, FastForwardAt, Le64, Le32, StubCode, ForwardCode, CodeAt;
    if EntryStubAt(mapped, rva, image) {
      Within(mapped, rva, image);
      StubAt(mapped, rva, image, Le64(mapped, rva + 2));
    } else {
      Within(mapped, rva, image);
      var distance := Signed32(Le32(mapped, rva + 10));
      ForwardAt(mapped, rva, image, distance);
    }
  }

  lemma Within(mapped: seq<byte>, rva: u32, image: u32)
    ensures EntryStubAt(mapped, rva, image) ==> rva + 12 <= |mapped|
    ensures FastForwardAt(mapped, rva, image) ==> rva + 14 <= |mapped|
  {
  }

  // ----- The image is the file -----

  /**
  In an image loaded from the file, with every candidate's metadata backed by it, both
  readers see the same words.
  */
  lemma LoadedAgrees(bytes: seq<byte>, sections: seq<Sections.Section>, mapped: seq<byte>, codeStart: u32, codeEnd: u32)
    requires codeEnd <= |mapped| && Loaded(mapped, bytes, sections)
    requires forall c: u32 | Candidate(c, codeStart, codeEnd) && c >= 4 ::
               Sections.ReadU32At(bytes, sections, c - 4).Ok?
    ensures Agrees(bytes, sections, mapped, codeStart, codeEnd)
  {
    hide Loaded, Sections.ReadU32At;
    forall c: u32 | Candidate(c, codeStart, codeEnd) && c >= METADATA_SIZE
      ensures Sections.ReadU32At(bytes, sections, c - METADATA_SIZE) == Ok(Le32(mapped, c - METADATA_SIZE))
    {
      WordIsLoaded(mapped, bytes, sections, c - METADATA_SIZE);
    }
  }
}
