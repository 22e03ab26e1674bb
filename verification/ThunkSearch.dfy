/**
ARM64EC entry thunks: reading the metadata word before a function, and finding
the function whose metadata names a given thunk.
*/
module ThunkSearch {
  import opened Wrappers
  import opened Bytes
  import Sections

  const METADATA_SIZE := 4
  const SCAN_LIMIT := 0x10_0000
  const U32_MAX: u32 := 0xffff_ffff

  datatype ReadError = TooCloseToBase | MetadataTruncated | ThunkOutsideImage

  /** The signed delta of a metadata word: its two tag bits are dropped. */
  function Delta(raw: u32): int {
    var masked := raw - raw % 4;
    if masked < 0x8000_0000 then masked else masked - TWO_32
  }

  /** Forward: the thunk that a function's metadata names. */
  function EntryThunk(bytes: seq<byte>, sections: seq<Sections.Section>, functionRva: u32, image: u32)
    : Result<Option<u32>, ReadError>
  {
    if functionRva < METADATA_SIZE then Err(TooCloseToBase)
    else
      match Sections.ReadU32At(bytes, sections, functionRva - METADATA_SIZE)
      case Err(_) => Err(MetadataTruncated)
      case Ok(raw) =>
        var target := functionRva + Delta(raw);
        if Delta(raw) == 0 then Ok(None)
        else if target < 0 || target >= image then Err(ThunkOutsideImage)
        else Ok(Some(target))
  }

  datatype Kind = X64EntryStub | X64FastForward | EcEntryThunk

  datatype Route = Route(kind: Kind, body: u32)

  datatype DetectError =
    | TargetOutsideImage
    | InvalidRange
    | RangeTooLarge
    | RangeNotMapped
    | AddressOverflow
    | StubOutsideImage
    | FastForwardOutsideImage

  // ----- The two x64 forms -----

  predicate Mapped(mapped: seq<byte>, rva: u32, length: nat, image: u32) {
    rva + length < TWO_32 && rva + length <= image && rva + length <= |mapped|
  }

  predicate EntryStubAt(mapped: seq<byte>, rva: u32, image: u32) {
    Mapped(mapped, rva, 12, image) &&
    mapped[rva] == 0x48 && mapped[rva + 1] == 0xb8 && mapped[rva + 10] == 0xff && mapped[rva + 11] == 0xe0
  }

  const FAST_FORWARD: seq<byte> := [0x48, 0x8b, 0xc4, 0x48, 0x89, 0x58, 0x20, 0x55, 0x5d, 0xe9]

  predicate FastForwardAt(mapped: seq<byte>, rva: u32, image: u32) {
    Mapped(mapped, rva, 14, image) && mapped[rva..rva + 10] == FAST_FORWARD
  }

  function Signed32(raw: u32): int {
    if raw < 0x8000_0000 then raw else raw - TWO_32
  }

  /** What the x64 patterns decide; `None` when neither is at `rva`. */
  function X64Form(mapped: seq<byte>, base: u64, rva: u32, image: u32): Option<Result<Route, DetectError>> {
    if EntryStubAt(mapped, rva, image) then
      var target := Le64(mapped, rva + 2);
      if base + image >= TWO_64 then Some(Err(AddressOverflow))
      else if target < base || target >= base + image then Some(Err(StubOutsideImage))
      else Some(Ok(Route(X64EntryStub, target - base)))
    else if FastForwardAt(mapped, rva, image) then
      var target := rva + 14 + Signed32(Le32(mapped, rva + 10));
      if target < 0 || target >= image then Some(Err(FastForwardOutsideImage))
      else Some(Ok(Route(X64FastForward, target)))
    else None
  }

  // ----- The backward scan -----

  /** Whether the metadata before `candidate` in the mapped image names `rva`. */
  predicate Names(mapped: seq<byte>, candidate: nat, rva: u32)
    requires candidate <= |mapped|
  {
    candidate >= METADATA_SIZE &&
    var delta := Delta(Le32(mapped, candidate - METADATA_SIZE));
    delta != 0 && candidate + delta == rva
  }

  function Saturating4(c: u32): u32 {
    Sections.SaturatingAdd(c, 4)
  }

  /**
  The addresses a scan visits: aligned ones whose (saturating) end is inside the
  range, and the saturation point itself when the range reaches it.
  */
  predicate Candidate(c: u32, codeStart: u32, codeEnd: u32) {
    (c % 4 == 0 || c == U32_MAX) && codeStart - codeStart % 4 <= c && Saturating4(c) <= codeEnd
  }

  ghost predicate SomeCandidateNames(mapped: seq<byte>, rva: u32, codeStart: u32, codeEnd: u32)
    requires codeEnd <= |mapped|
  {
    exists c: u32 :: Candidate(c, codeStart, codeEnd) && Names(mapped, c, rva)
  }

  /** The calls on which the source returns at all: see `ScanDiverges` for the others. */
  ghost predicate Terminates(mapped: seq<byte>, base: u64, rva: u32, codeStart: u32, codeEnd: u32, image: u32) {
    codeEnd < U32_MAX || !Admitted(mapped, rva, codeStart, codeEnd, image) ||
    X64Form(mapped, base, rva, image).Some? || SomeCandidateNames(mapped, rva, codeStart, codeEnd)
  }

  /** The loop over the enclosing code range. */
  method Scan(mapped: seq<byte>, rva: u32, codeStart: u32, codeEnd: u32) returns (r: Result<Option<Route>, DetectError>)
    requires codeEnd <= |mapped|
    requires codeEnd < U32_MAX || SomeCandidateNames(mapped, rva, codeStart, codeEnd)
    ensures IsScanResult(mapped, rva, codeStart, codeEnd, r)
  {
    hide Names;
    var candidate: u32 := codeStart - codeStart % 4;
    while Saturating4(candidate) <= codeEnd
      invariant (candidate % 4 == 0 || candidate == U32_MAX) && codeStart - codeStart % 4 <= candidate
      invariant forall c: u32 | c < candidate && Candidate(c, codeStart, codeEnd) :: !Names(mapped, c, rva)
      decreases U32_MAX - candidate
    {
      if Names(mapped, candidate, rva) {
        return Ok(Some(Route(EcEntryThunk, candidate)));
      }
      candidate := Saturating4(candidate);
    }
    return Ok(None);
  }

  method Detect(mapped: seq<byte>, base: u64, rva: u32, codeStart: u32, codeEnd: u32, image: u32)
    returns (r: Result<Option<Route>, DetectError>)
    requires Terminates(mapped, base, rva, codeStart, codeEnd, image)
    ensures rva >= image ==> r == Err(TargetOutsideImage)
    ensures rva < image && !(codeStart <= codeEnd <= image) ==> r == Err(InvalidRange)
    ensures rva < image && codeStart <= codeEnd <= image && codeEnd - codeStart > SCAN_LIMIT ==>
              r == Err(RangeTooLarge)
    ensures rva < image && codeStart <= codeEnd <= image && codeEnd - codeStart <= SCAN_LIMIT && codeEnd > |mapped| ==>
              r == Err(RangeNotMapped)
    ensures Admitted(mapped, rva, codeStart, codeEnd, image) ==>
              match X64Form(mapped, base, rva, image)
              case Some(Err(e)) => r == Err(e)
              case Some(Ok(route)) => r == Ok(Some(route))
              case None => IsScanResult(mapped, rva, codeStart, codeEnd, r)
  {
    if rva >= image {
      return Err(TargetOutsideImage);
    }
    if codeStart > codeEnd || codeEnd > image {
      return Err(InvalidRange);
    }
    if codeEnd - codeStart > SCAN_LIMIT {
      return Err(RangeTooLarge);
    }
    if codeEnd > |mapped| {
      return Err(RangeNotMapped);
    }
    var x64 := X64Form(mapped, base, rva, image);
    if x64.Some? {
      match x64.value {
        case Err(e) => return Err(e);
        case Ok(route) => return Ok(Some(route));
      }
    }
    r := Scan(mapped, rva, codeStart, codeEnd);
  }

  predicate Admitted(mapped: seq<byte>, rva: u32, codeStart: u32, codeEnd: u32, image: u32) {
    rva < image && codeStart <= codeEnd <= image && codeEnd - codeStart <= SCAN_LIMIT && codeEnd <= |mapped|
  }

  /** The lowest candidate that names `rva`, and nothing exactly when there is none. */
  ghost predicate IsScanResult(mapped: seq<byte>, rva: u32, codeStart: u32, codeEnd: u32,
                               r: Result<Option<Route>, DetectError>)
    requires codeEnd <= |mapped|
  {
    match r
    case Err(_) => false
    case Ok(None) => forall c: u32 | Candidate(c, codeStart, codeEnd) :: !Names(mapped, c, rva)
    case Ok(Some(route)) =>
      && route.kind == EcEntryThunk && Candidate(route.body, codeStart, codeEnd) && Names(mapped, route.body, rva)
      && forall c: u32 | c < route.body && Candidate(c, codeStart, codeEnd) :: !Names(mapped, c, rva)
  }

  // ----- Forward and backward agree -----

  /** The mapped image holds, before every candidate, what the file's sections hold. */
  ghost predicate Agrees(bytes: seq<byte>, sections: seq<Sections.Section>, mapped: seq<byte>, codeStart: u32,
                         codeEnd: u32)
    requires codeEnd <= |mapped|
  {
    forall c: u32 | Candidate(c, codeStart, codeEnd) && c >= METADATA_SIZE ::
      Sections.ReadU32At(bytes, sections, c - METADATA_SIZE) == Ok(Le32(mapped, c - METADATA_SIZE))
  }

  lemma NamesIsForward(bytes: seq<byte>, sections: seq<Sections.Section>, mapped: seq<byte>, c: u32, codeStart: u32,
                       codeEnd: u32, rva: u32, image: u32)
    requires codeEnd <= |mapped| && Agrees(bytes, sections, mapped, codeStart, codeEnd)
    requires Candidate(c, codeStart, codeEnd) && rva < image
    ensures Names(mapped, c, rva) <==> EntryThunk(bytes, sections, c, image) == Ok(Some(rva))
  {
    if c >= METADATA_SIZE {
      assert Sections.ReadU32At(bytes, sections, c - METADATA_SIZE) == Ok(Le32(mapped, c - METADATA_SIZE));
    }
  }

  /**
  What the backward scan finds is the lowest body whose own metadata, read
  forward from the file, yields the thunk; it finds nothing exactly when no
  body in range does.
  */
  lemma ScanInvertsMetadata(bytes: seq<byte>, sections: seq<Sections.Section>, mapped: seq<byte>, rva: u32,
                            codeStart: u32, codeEnd: u32, image: u32, r: Result<Option<Route>, DetectError>)
    requires Admitted(mapped, rva, codeStart, codeEnd, image) && Agrees(bytes, sections, mapped, codeStart, codeEnd)
    requires IsScanResult(mapped, rva, codeStart, codeEnd, r)
    ensures r.Ok?
    ensures r.value.None? <==>
            forall c: u32 | Candidate(c, codeStart, codeEnd) :: EntryThunk(bytes, sections, c, image) != Ok(Some(rva))
    ensures r.value.Some? ==>
              && r.value.value.kind == EcEntryThunk && Candidate(r.value.value.body, codeStart, codeEnd)
              && EntryThunk(bytes, sections, r.value.value.body, image) == Ok(Some(rva))
              && forall c: u32 | Candidate(c, codeStart, codeEnd) && c < r.value.value.body ::
                   EntryThunk(bytes, sections, c, image) != Ok(Some(rva))
  {
    hide Names, EntryThunk, Agrees;
    forall c: u32 | Candidate(c, codeStart, codeEnd)
      ensures Names(mapped, c, rva) <==> EntryThunk(bytes, sections, c, image) == Ok(Some(rva))
    {
      NamesIsForward(bytes, sections, mapped, c, codeStart, codeEnd, rva, image);
    }
  }

  // ----- The calls that never return -----

  /** The candidate after `n` turns of the loop. */
  function Iterate(codeStart: u32, n: nat): u32 {
    if n == 0 then codeStart - codeStart % 4 else Saturating4(Iterate(codeStart, n - 1))
  }

  /**
  On every other call the range ends at the largest address and names nothing:
  the saturating candidate stays inside the range for ever.
  */
  lemma {:induction false} ScanDiverges(mapped: seq<byte>, base: u64, rva: u32, codeStart: u32, codeEnd: u32,
                                        image: u32, n: nat)
    requires !Terminates(mapped, base, rva, codeStart, codeEnd, image)
    ensures X64Form(mapped, base, rva, image).None?
    ensures Saturating4(Iterate(codeStart, n)) <= codeEnd && !Names(mapped, Iterate(codeStart, n), rva)
  {
    hide X64Form, Names;
    VisitsCandidates(codeStart, n);
    assert Candidate(Iterate(codeStart, n), codeStart, codeEnd);
  }

  /** Such a call exists: a zeroed image whose code range is its last address. */
  lemma SomeCallDiverges() returns (mapped: seq<byte>)
    ensures !Terminates(mapped, 0, 0, U32_MAX, U32_MAX, U32_MAX)
  {
    mapped := Zeros(U32_MAX);
    hide EntryStubAt, FastForwardAt;
    NoFormInZeros(mapped);
    forall c: u32 | Candidate(c, U32_MAX, U32_MAX)
      ensures !Names(mapped, c, 0)
    {
      NothingNamedInZeros(mapped, c);
    }
  }

  lemma NoFormInZeros(mapped: seq<byte>)
    requires AllZero(mapped)
    ensures !EntryStubAt(mapped, 0, U32_MAX) && !FastForwardAt(mapped, 0, U32_MAX)
  {
  }

  lemma NothingNamedInZeros(mapped: seq<byte>, c: u32)
    requires AllZero(mapped) && c <= |mapped|
    ensures !Names(mapped, c, 0)
  {
  }

  lemma {:induction false} VisitsCandidates(codeStart: u32, n: nat)
    ensures var c := Iterate(codeStart, n);
            (c % 4 == 0 || c == U32_MAX) && codeStart - codeStart % 4 <= c
  {
    if n > 0 {
      VisitsCandidates(codeStart, n - 1);
    }
  }
}
