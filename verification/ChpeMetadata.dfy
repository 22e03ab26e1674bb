/**
Parsing CHPE metadata out of a file: header fields, code map, entry-point
ranges and redirections.
*/
module ChpeMetadata {
  import opened Wrappers
  import opened Bytes
  import opened CodeMap
  import opened Sections

  datatype EntryRange = EntryRange(start: u32, end: u32, entryPoint: u32)

  datatype Redirection = Redirection(source: u32, destination: u32)

  /**
  `fields` are the header words in file order: 20 of them in version 1 and 23
  in version 2.
  */
  datatype Metadata = Metadata(
    fields: seq<u32>,
    codeMap: seq<CodeRange>,
    entryPoints: seq<EntryRange>,
    redirections: seq<Redirection>)

  const CODE_MAP_RVA := 1
  const CODE_MAP_COUNT := 2
  const ENTRY_POINTS_RVA := 3
  const REDIRECTIONS_RVA := 4
  const ENTRY_POINTS_COUNT := 12
  const REDIRECTIONS_COUNT := 13

  datatype Error =
    | NullPointer
    | PointerTooLarge
    | FieldOverflow
    | FieldTruncated(index: nat)
    | UnsupportedVersion
    | CodeMapMissing
    | CodeMapTooLarge
    | EntryPointsNull
    | RedirectionsNull
    | OffsetOverflow
    | TableTruncated
    | ReservedType
    | BadRange(why: MapError)
    | InvertedRange
    | OutsideImage

  // ----- Header -----

  function VaToRva(va: u64, base: u64): Result<u32, Error> {
    var rva := if va >= base then va - base else va;
    if va == 0 then Err(NullPointer)
    else if rva >= TWO_32 then Err(PointerTooLarge)
    else Ok(rva)
  }

  function Field(bytes: seq<byte>, sections: seq<Section>, metadata: u32, index: nat): Result<u32, Error> {
    if metadata + 4 * index >= TWO_32 then Err(FieldOverflow)
    else
      match ReadU32At(bytes, sections, metadata + 4 * index)
      case Err(_) => Err(FieldTruncated(index))
      case Ok(word) => Ok(word)
  }

  function Fields(bytes: seq<byte>, sections: seq<Section>, metadata: u32, lo: nat, hi: nat)
    : (r: Result<seq<u32>, Error>)
    requires lo <= hi
    ensures r.Ok? ==> |r.value| == hi - lo
    decreases hi - lo
  {
    if lo == hi then Ok([])
    else
      match Field(bytes, sections, metadata, lo)
      case Err(e) => Err(e)
      case Ok(word) => Resume([word], Fields(bytes, sections, metadata, lo + 1, hi))
  }

  /** The header, with the checks that come before the tables are read. */
  function Header(bytes: seq<byte>, sections: seq<Section>, base: u64, pointer: u64): (r: Result<seq<u32>, Error>)
    ensures r.Ok? ==> |r.value| == 20 || |r.value| == 23
    ensures r.Ok? ==> r.value[CODE_MAP_COUNT] > 0
  {
    match VaToRva(pointer, base)
    case Err(e) => Err(e)
    case Ok(metadata) =>
      match Fields(bytes, sections, metadata, 0, 1)
      case Err(e) => Err(e)
      case Ok(first) =>
        if first[0] == 0 || first[0] > 2 then Err(UnsupportedVersion)
        else
          match Fields(bytes, sections, metadata, 1, 3)
          case Err(e) => Err(e)
          case Ok(location) =>
            if location[1] == 0 || location[0] == 0 then Err(CodeMapMissing)
            else if location[1] as int * 8 > |bytes| then Err(CodeMapTooLarge)
            else
              match Fields(bytes, sections, metadata, 3, if first[0] >= 2 then 23 else 20)
              case Err(e) => Err(e)
              case Ok(others) =>
                var fields := first + location + others;
                if fields[ENTRY_POINTS_COUNT] != 0 && fields[ENTRY_POINTS_RVA] == 0 then Err(EntryPointsNull)
                else if fields[REDIRECTIONS_COUNT] != 0 && fields[REDIRECTIONS_RVA] == 0 then Err(RedirectionsNull)
                else Ok(fields)
  }

  // ----- Tables -----

  /** `words` consecutive words of the entry `index` of a table. */
  function Entry(bytes: seq<byte>, sections: seq<Section>, table: u32, index: u32, words: nat)
    : (r: Result<seq<u32>, Error>)
    requires words == 2 || words == 3
    ensures r.Ok? ==> |r.value| == words
  {
    var rva := table + index * (4 * words);
    if index * (4 * words) >= TWO_32 || rva >= TWO_32 then Err(OffsetOverflow)
    else
      match ReadU32At(bytes, sections, rva)
      case Err(_) => Err(TableTruncated)
      case Ok(first) =>
        match ReadU32At(bytes, sections, rva + 4)
        case Err(_) => Err(TableTruncated)
        case Ok(second) =>
          if words == 2 then Ok([first, second])
          else
            match ReadU32At(bytes, sections, rva + 8)
            case Err(_) => Err(TableTruncated)
            case Ok(third) => Ok([first, second, third])
  }

  function KindCode(kind: CodeKind): nat {
    match kind
    case Arm64 => 0
    case Arm64Ec => 1
    case Amd64 => 2
  }

  function KindOf(code: nat): Option<CodeKind> {
    if code == 0 then Some(Arm64) else if code == 1 then Some(Arm64Ec) else if code == 2 then Some(Amd64) else None
  }

  /** One code map entry: the low two bits of the start are its kind. */
  function DecodeRange(words: seq<u32>, previousEnd: u32, image: u32): Result<CodeRange, Error>
    requires |words| == 2
  {
    var raw, length := words[0], words[1];
    var kind := KindOf(raw % 4);
    if length == 0 then Err(BadRange(ZeroLength))
    else if kind.None? then Err(ReservedType)
    else
      var start: u32 := raw - raw % 4;
      match CheckRange(start, length, previousEnd, image)
      case Err(e) => Err(BadRange(e))
      case Ok(_) => Ok(CodeRange(start, length, kind.value))
  }

  function CodeMapFrom(bytes: seq<byte>, sections: seq<Section>, table: u32, index: u32, count: u32,
                       previousEnd: u32, image: u32): Result<seq<CodeRange>, Error>
    decreases count - index
  {
    if index >= count then Ok([])
    else
      match Entry(bytes, sections, table, index, 2)
      case Err(e) => Err(e)
      case Ok(words) =>
        match DecodeRange(words, previousEnd, image)
        case Err(e) => Err(e)
        case Ok(range) =>
          Resume([range], CodeMapFrom(bytes, sections, table, index + 1, count, range.start + range.length, image))
  }

  method ParseCodeMap(bytes: seq<byte>, sections: seq<Section>, table: u32, count: u32, image: u32)
    returns (r: Result<seq<CodeRange>, Error>)
    ensures r == CodeMapFrom(bytes, sections, table, 0, count, 0, image)
  {
    hide Entry, DecodeRange;
    var ranges := [];
    var previousEnd: u32 := 0;
    var index: u32 := 0;
    while index < count
      invariant index <= count
      invariant CodeMapFrom(bytes, sections, table, 0, count, 0, image) ==
                Resume(ranges, CodeMapFrom(bytes, sections, table, index, count, previousEnd, image))
    {
      var words := Entry(bytes, sections, table, index, 2);
      if words.Err? {
        return Err(words.error);
      }
      var range := DecodeRange(words.value, previousEnd, image);
      if range.Err? {
        return Err(range.error);
      }
      RangeEnds(words.value, previousEnd, image);
      previousEnd := range.value.start + range.value.length;
      ResumeTwice(ranges, [range.value],
                  CodeMapFrom(bytes, sections, table, index + 1, count, previousEnd, image));
      ranges := ranges + [range.value];
      index := index + 1;
    }
    return Ok(ranges);
  }

  lemma RangeEnds(words: seq<u32>, previousEnd: u32, image: u32)
    requires |words| == 2 && DecodeRange(words, previousEnd, image).Ok?
    ensures var r := DecodeRange(words, previousEnd, image).value;
            CheckRange(r.start, r.length, previousEnd, image) == Ok(r.start + r.length)
  {
  }

  function DecodeEntryRange(words: seq<u32>, image: u32): Result<EntryRange, Error>
    requires |words| == 3
  {
    if words[0] > words[1] then Err(InvertedRange)
    else if words[1] > image || words[2] >= image then Err(OutsideImage)
    else Ok(EntryRange(words[0], words[1], words[2]))
  }

  function EntryPointsFrom(bytes: seq<byte>, sections: seq<Section>, table: u32, index: u32, count: u32, image: u32)
    : Result<seq<EntryRange>, Error>
    decreases count - index
  {
    if index >= count then Ok([])
    else
      match Entry(bytes, sections, table, index, 3)
      case Err(e) => Err(e)
      case Ok(words) =>
        match DecodeEntryRange(words, image)
        case Err(e) => Err(e)
        case Ok(range) => Resume([range], EntryPointsFrom(bytes, sections, table, index + 1, count, image))
  }

  method ParseEntryPoints(bytes: seq<byte>, sections: seq<Section>, table: u32, count: u32, image: u32)
    returns (r: Result<seq<EntryRange>, Error>)
    ensures r == EntryPointsFrom(bytes, sections, table, 0, count, image)
  {
    hide Entry, DecodeEntryRange;
    var ranges := [];
    var index: u32 := 0;
    while index < count
      invariant index <= count
      invariant EntryPointsFrom(bytes, sections, table, 0, count, image) ==
                Resume(ranges, EntryPointsFrom(bytes, sections, table, index, count, image))
    {
      var words := Entry(bytes, sections, table, index, 3);
      if words.Err? {
        return Err(words.error);
      }
      var range := DecodeEntryRange(words.value, image);
      if range.Err? {
        return Err(range.error);
      }
      ResumeTwice(ranges, [range.value], EntryPointsFrom(bytes, sections, table, index + 1, count, image));
      ranges := ranges + [range.value];
      index := index + 1;
    }
    return Ok(ranges);
  }

  function DecodeRedirection(words: seq<u32>, image: u32): Result<Redirection, Error>
    requires |words| == 2
  {
    if words[0] >= image || words[1] >= image then Err(OutsideImage) else Ok(Redirection(words[0], words[1]))
  }

  function RedirectionsFrom(bytes: seq<byte>, sections: seq<Section>, table: u32, index: u32, count: u32, image: u32)
    : Result<seq<Redirection>, Error>
    decreases count - index
  {
    if index >= count then Ok([])
    else
      match Entry(bytes, sections, table, index, 2)
      case Err(e) => Err(e)
      case Ok(words) =>
        match DecodeRedirection(words, image)
        case Err(e) => Err(e)
        case Ok(redirection) =>
          Resume([redirection], RedirectionsFrom(bytes, sections, table, index + 1, count, image))
  }

  method ParseRedirections(bytes: seq<byte>, sections: seq<Section>, table: u32, count: u32, image: u32)
    returns (r: Result<seq<Redirection>, Error>)
    ensures r == RedirectionsFrom(bytes, sections, table, 0, count, image)
  {
    hide Entry, DecodeRedirection;
    var redirections := [];
    var index: u32 := 0;
    while index < count
      invariant index <= count
      invariant RedirectionsFrom(bytes, sections, table, 0, count, image) ==
                Resume(redirections, RedirectionsFrom(bytes, sections, table, index, count, image))
    {
      var words := Entry(bytes, sections, table, index, 2);
      if words.Err? {
        return Err(words.error);
      }
      var redirection := DecodeRedirection(words.value, image);
      if redirection.Err? {
        return Err(redirection.error);
      }
      ResumeTwice(redirections, [redirection.value],
                  RedirectionsFrom(bytes, sections, table, index + 1, count, image));
      redirections := redirections + [redirection.value];
      index := index + 1;
    }
    return Ok(redirections);
  }

  // ----- The whole of it -----

  function Parse(bytes: seq<byte>, sections: seq<Section>, base: u64, image: u32, pointer: u64)
    : Result<Metadata, Error>
  {
    match Header(bytes, sections, base, pointer)
    case Err(e) => Err(e)
    case Ok(fields) =>
      match CodeMapFrom(bytes, sections, fields[CODE_MAP_RVA], 0, fields[CODE_MAP_COUNT], 0, image)
      case Err(e) => Err(e)
      case Ok(codeMap) =>
        match EntryPointsFrom(bytes, sections, fields[ENTRY_POINTS_RVA], 0, fields[ENTRY_POINTS_COUNT], image)
        case Err(e) => Err(e)
        case Ok(entryPoints) =>
          match RedirectionsFrom(bytes, sections, fields[REDIRECTIONS_RVA], 0, fields[REDIRECTIONS_COUNT], image)
          case Err(e) => Err(e)
          case Ok(redirections) => Ok(Metadata(fields, codeMap, entryPoints, redirections))
  }

  method ParseMetadata(bytes: seq<byte>, sections: seq<Section>, base: u64, image: u32, pointer: u64)
    returns (r: Result<Metadata, Error>)
    ensures r == Parse(bytes, sections, base, image, pointer)
  {
    hide Header, CodeMapFrom, EntryPointsFrom, RedirectionsFrom;
    var fields := Header(bytes, sections, base, pointer);
    if fields.Err? {
      return Err(fields.error);
    }
    var codeMap := ParseCodeMap(bytes, sections, fields.value[CODE_MAP_RVA], fields.value[CODE_MAP_COUNT], image);
    if codeMap.Err? {
      return Err(codeMap.error);
    }
    var entryPoints :=
      ParseEntryPoints(bytes, sections, fields.value[ENTRY_POINTS_RVA], fields.value[ENTRY_POINTS_COUNT], image);
    if entryPoints.Err? {
      return Err(entryPoints.error);
    }
    var redirections :=
      ParseRedirections(bytes, sections, fields.value[REDIRECTIONS_RVA], fields.value[REDIRECTIONS_COUNT], image);
    if redirections.Err? {
      return Err(redirections.error);
    }
    return Ok(Metadata(fields.value, codeMap.value, entryPoints.value, redirections.value));
  }

  // ----- Accepted code maps -----

  /** What the file holds for a code range. */
  function Encode(r: CodeRange): (words: seq<u32>)
    requires r.start % 4 == 0
    ensures |words| == 2
  {
    [r.start + KindCode(r.kind), r.length]
  }

  predicate Aligned(ranges: seq<CodeRange>) {
    forall i | 0 <= i < |ranges| :: ranges[i].start % 4 == 0
  }

  /** `ranges` are the words of the table from entry `index` on. */
  predicate Stored(bytes: seq<byte>, sections: seq<Section>, table: u32, index: u32, ranges: seq<CodeRange>)
    requires Aligned(ranges)
  {
    index + |ranges| < TWO_32 &&
    forall i | 0 <= i < |ranges| :: Entry(bytes, sections, table, index + i, 2) == Ok(Encode(ranges[i]))
  }

  lemma DecodeExactly(words: seq<u32>, r: CodeRange, previousEnd: u32, image: u32)
    requires |words| == 2
    ensures DecodeRange(words, previousEnd, image) == Ok(r) <==>
            r.start % 4 == 0 && words == Encode(r) && CheckRange(r.start, r.length, previousEnd, image).Ok?
  {
    if r.start % 4 == 0 && words == Encode(r) {
      assert words[0] % 4 == KindCode(r.kind);
    }
    if DecodeRange(words, previousEnd, image) == Ok(r) {
      assert words == [words[0], words[1]];
    }
  }

  /**
  The code map parser accepts exactly the tables that hold a sorted, disjoint,
  in-image list of four-byte aligned ranges, and returns that list.
  */
  lemma {:induction false} CodeMapExactly(bytes: seq<byte>, sections: seq<Section>, table: u32, index: u32, count: u32,
                                          previousEnd: u32, image: u32, ranges: seq<CodeRange>)
    requires index <= count
    ensures CodeMapFrom(bytes, sections, table, index, count, previousEnd, image) == Ok(ranges) <==>
            && |ranges| == count - index
            && Aligned(ranges)
            && Stored(bytes, sections, table, index, ranges)
            && CheckFrom(ranges, previousEnd, image).Ok?
    decreases count - index
  {
    hide Entry, DecodeRange, Encode, CheckRange;
    if index < count && Entry(bytes, sections, table, index, 2).Ok? {
      var words := Entry(bytes, sections, table, index, 2).value;
      if DecodeRange(words, previousEnd, image).Ok? {
        var r := DecodeRange(words, previousEnd, image).value;
        DecodeExactly(words, r, previousEnd, image);
        RangeEnds(words, previousEnd, image);
        if ranges != [] {
          CodeMapExactly(bytes, sections, table, index + 1, count, r.start + r.length, image, ranges[1..]);
          ConsStored(bytes, sections, table, index, ranges);
          assert [ranges[0]] + ranges[1..] == ranges;
        }
      }
      if ranges != [] {
        DecodeExactly(words, ranges[0], previousEnd, image);
      }
    }
    if index < count && ranges != [] {
      ConsStored(bytes, sections, table, index, ranges);
    }
  }

  lemma ConsStored(bytes: seq<byte>, sections: seq<Section>, table: u32, index: u32, ranges: seq<CodeRange>)
    requires ranges != [] && index + 1 < TWO_32
    ensures Aligned(ranges) <==> ranges[0].start % 4 == 0 && Aligned(ranges[1..])
    ensures Aligned(ranges) ==>
              (Stored(bytes, sections, table, index, ranges) <==>
               Entry(bytes, sections, table, index, 2) == Ok(Encode(ranges[0])) &&
               Stored(bytes, sections, table, index + 1, ranges[1..]))
  {
    hide Entry, Encode;
    var rest := ranges[1..];
    assert forall i | 0 < i < |ranges| :: ranges[i] == rest[i - 1];
    if Aligned(ranges) && Stored(bytes, sections, table, index, ranges) {
      assert Entry(bytes, sections, table, index + 0, 2) == Ok(Encode(ranges[0]));
      forall i | 0 <= i < |rest|
        ensures Entry(bytes, sections, table, index + 1 + i, 2) == Ok(Encode(rest[i]))
      {
        assert Entry(bytes, sections, table, index + (i + 1), 2) == Ok(Encode(ranges[i + 1]));
      }
    }
    if Aligned(ranges) && Stored(bytes, sections, table, index + 1, rest) &&
       Entry(bytes, sections, table, index, 2) == Ok(Encode(ranges[0])) {
      forall i | 0 <= i < |ranges|
        ensures Entry(bytes, sections, table, index + i, 2) == Ok(Encode(ranges[i]))
      {
        if i > 0 {
          assert Entry(bytes, sections, table, index + 1 + (i - 1), 2) == Ok(Encode(rest[i - 1]));
        }
      }
    }
  }

  /** Every accepted image passes the code map validator. */
  lemma AcceptedValidates(bytes: seq<byte>, sections: seq<Section>, base: u64, image: u32, pointer: u64)
    requires Parse(bytes, sections, base, image, pointer).Ok?
    ensures var ranges := Parse(bytes, sections, base, image, pointer).value.codeMap;
            ranges != [] && SortedDisjoint(ranges, image) && CheckFrom(ranges, 0, image).Ok?
  {
    hide Header, CodeMapFrom, CheckFrom, SortedDisjoint;
    var m := Parse(bytes, sections, base, image, pointer).value;
    CodeMapExactly(bytes, sections, m.fields[CODE_MAP_RVA], 0, m.fields[CODE_MAP_COUNT], 0, image, m.codeMap);
    SortedExactly(m.codeMap, 0, image);
  }

  // ----- Routing -----

  function RedirectTarget(redirections: seq<Redirection>, rva: u32): Option<u32> {
    if redirections == [] then None
    else if redirections[0].source == rva then Some(redirections[0].destination)
    else RedirectTarget(redirections[1..], rva)
  }

  function EntryTarget(ranges: seq<EntryRange>, rva: u32): Option<u32> {
    if ranges == [] then None
    else if ranges[0].start <= rva < ranges[0].end then Some(ranges[0].entryPoint)
    else EntryTarget(ranges[1..], rva)
  }

  function RouteEntryPoint(m: Metadata, rva: u32): Option<u32> {
    match EntryTarget(m.entryPoints, rva)
    case Some(target) => Some(target)
    case None => RedirectTarget(m.redirections, rva)
  }

  lemma {:induction false} EntryTargetsInside(bytes: seq<byte>, sections: seq<Section>, table: u32, index: u32,
                                              count: u32, image: u32, rva: u32)
    requires EntryPointsFrom(bytes, sections, table, index, count, image).Ok?
    ensures var t := EntryTarget(EntryPointsFrom(bytes, sections, table, index, count, image).value, rva);
            t.Some? ==> t.value < image && rva < image
    decreases count - index
  {
    hide Entry;
    if index < count {
      EntryTargetsInside(bytes, sections, table, index + 1, count, image, rva);
    }
  }

  lemma {:induction false} RedirectionsInside(bytes: seq<byte>, sections: seq<Section>, table: u32, index: u32,
                                              count: u32, image: u32, rva: u32)
    requires RedirectionsFrom(bytes, sections, table, index, count, image).Ok?
    ensures var t := RedirectTarget(RedirectionsFrom(bytes, sections, table, index, count, image).value, rva);
            t.Some? ==> t.value < image && rva < image
    decreases count - index
  {
    hide Entry;
    if index < count {
      RedirectionsInside(bytes, sections, table, index + 1, count, image, rva);
    }
  }

  /** Every route of an accepted image starts and ends inside the image. */
  lemma RoutesInside(bytes: seq<byte>, sections: seq<Section>, base: u64, image: u32, pointer: u64, rva: u32)
    requires Parse(bytes, sections, base, image, pointer).Ok?
    ensures var t := RouteEntryPoint(Parse(bytes, sections, base, image, pointer).value, rva);
            t.Some? ==> t.value < image && rva < image
  {
    hide Header, CodeMapFrom, EntryPointsFrom, RedirectionsFrom, EntryTarget, RedirectTarget;
    var fields := Parse(bytes, sections, base, image, pointer).value.fields;
    EntryTargetsInside(bytes, sections, fields[ENTRY_POINTS_RVA], 0, fields[ENTRY_POINTS_COUNT], image, rva);
    RedirectionsInside(bytes, sections, fields[REDIRECTIONS_RVA], 0, fields[REDIRECTIONS_COUNT], image, rva);
  }
}
