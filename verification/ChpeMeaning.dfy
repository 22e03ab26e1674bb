/**
What CHPE metadata means, word by word: exactly which files are accepted, what
each parsed record is made of, and where an address is routed.
*/
module ChpeMeaning {
  import opened Wrappers
  import opened Bytes
  import opened CodeMap
  import opened Sections
  import opened SectionMeaning
  import opened ChpeMetadata

  // ----- Words of the file -----

  /** The file backs a word at an address of the image. */
  predicate WordAt(bytes: seq<byte>, sections: seq<Section>, rva: nat, word: u32) {
    rva < TWO_32 && ReadU32At(bytes, sections, rva) == Ok(word)
  }

  /** Consecutive words from an address on. */
  predicate WordsAt(bytes: seq<byte>, sections: seq<Section>, rva: nat, words: seq<u32>) {
    forall i | 0 <= i < |words| :: WordAt(bytes, sections, rva + 4 * i, words[i])
  }

  /** They are the words of any image that the file was loaded into. */
  lemma WordsAreLoaded(image: seq<byte>, bytes: seq<byte>, sections: seq<Section>, rva: nat, words: seq<u32>, i: nat)
    requires Loaded(image, bytes, sections) && WordsAt(bytes, sections, rva, words) && i < |words|
    requires rva + 4 * i + 4 <= |image|
    ensures words[i] == Le32(image, rva + 4 * i)
  {
    hide Loaded, ReadU32At;
    assert WordAt(bytes, sections, rva + 4 * i, words[i]);
    WordIsLoaded(image, bytes, sections, rva + 4 * i);
  }

  lemma WordsCons(bytes: seq<byte>, sections: seq<Section>, rva: nat, words: seq<u32>)
    requires words != []
    ensures WordsAt(bytes, sections, rva, words) <==>
            WordAt(bytes, sections, rva, words[0]) && WordsAt(bytes, sections, rva + 4, words[1..])
  {
    hide WordAt;
    var rest := words[1..];
    if WordsAt(bytes, sections, rva, words) {
      assert WordAt(bytes, sections, rva + 4 * 0, words[0]);
      forall i | 0 <= i < |rest|
        ensures WordAt(bytes, sections, rva + 4 + 4 * i, rest[i])
      {
        assert WordAt(bytes, sections, rva + 4 * (i + 1), words[i + 1]);
        assert rva + 4 * (i + 1) == rva + 4 + 4 * i;
      }
    }
    if WordAt(bytes, sections, rva, words[0]) && WordsAt(bytes, sections, rva + 4, rest) {
      forall i | 0 <= i < |words|
        ensures WordAt(bytes, sections, rva + 4 * i, words[i])
      {
        if i > 0 {
          assert WordAt(bytes, sections, rva + 4 + 4 * (i - 1), rest[i - 1]);
          assert rva + 4 * i == rva + 4 + 4 * (i - 1);
        }
      }
    }
  }

  lemma FieldExactly(bytes: seq<byte>, sections: seq<Section>, metadata: u32, index: nat, word: u32)
    ensures Field(bytes, sections, metadata, index) == Ok(word) <==>
            WordAt(bytes, sections, metadata + 4 * index, word)
  {
    hide ReadU32At;
  }

  lemma {:induction false} FieldsExactly(bytes: seq<byte>, sections: seq<Section>, metadata: u32, lo: nat, hi: nat,
                                         words: seq<u32>)
    requires lo <= hi
    ensures Fields(bytes, sections, metadata, lo, hi) == Ok(words) <==>
            |words| == hi - lo && WordsAt(bytes, sections, metadata + 4 * lo, words)
    decreases hi - lo
  {
    hide Field, WordAt;
    if lo < hi && words != [] {
      FieldExactly(bytes, sections, metadata, lo, words[0]);
      FieldsExactly(bytes, sections, metadata, lo + 1, hi, words[1..]);
      WordsCons(bytes, sections, metadata + 4 * lo, words);
      assert metadata + 4 * (lo + 1) == metadata + 4 * lo + 4;
      assert words == [words[0]] + words[1..];
    }
  }

  lemma WordsConcat(bytes: seq<byte>, sections: seq<Section>, rva: nat, a: seq<u32>, b: seq<u32>)
    ensures WordsAt(bytes, sections, rva, a + b) <==>
            WordsAt(bytes, sections, rva, a) && WordsAt(bytes, sections, rva + 4 * |a|, b)
    decreases |a|
  {
    hide WordsAt;
    if a == [] {
      assert a + b == b;
      assert WordsAt(bytes, sections, rva, []) by { NoWords(bytes, sections, rva); }
    } else {
      assert (a + b)[1..] == a[1..] + b && (a + b)[0] == a[0];
      WordsCons(bytes, sections, rva, a + b);
      WordsCons(bytes, sections, rva, a);
      WordsConcat(bytes, sections, rva + 4, a[1..], b);
      assert rva + 4 + 4 * |a[1..]| == rva + 4 * |a|;
    }
  }

  lemma NoWords(bytes: seq<byte>, sections: seq<Section>, rva: nat)
    ensures WordsAt(bytes, sections, rva, [])
  {
  }

  // ----- The header -----

  /** Pointers at or above the image base are virtual addresses; others are taken as they are. */
  function Located(pointer: u64, base: u64): nat {
    if pointer >= base then pointer - base else pointer
  }

  /** What makes words an acceptable header, wherever they stand. */
  predicate HeaderFine(bytes: seq<byte>, fields: seq<u32>) {
    && ((|fields| == 20 && fields[0] == 1) || (|fields| == 23 && fields[0] == 2))
    && fields[CODE_MAP_RVA] > 0 && 0 < fields[CODE_MAP_COUNT] as int * 8 <= |bytes|
    && (fields[ENTRY_POINTS_COUNT] > 0 ==> fields[ENTRY_POINTS_RVA] > 0)
    && (fields[REDIRECTIONS_COUNT] > 0 ==> fields[REDIRECTIONS_RVA] > 0)
  }

  lemma HeaderExactly(bytes: seq<byte>, sections: seq<Section>, base: u64, pointer: u64, fields: seq<u32>)
    ensures Header(bytes, sections, base, pointer) == Ok(fields) <==>
            && pointer > 0 && Located(pointer, base) < TWO_32
            && HeaderFine(bytes, fields) && WordsAt(bytes, sections, Located(pointer, base), fields)
  {
    hide Fields, WordsAt;
    if pointer > 0 && Located(pointer, base) < TWO_32 {
      var metadata := Located(pointer, base);
      if Header(bytes, sections, base, pointer) == Ok(fields) {
        HeaderSplits(bytes, sections, metadata, base, pointer, fields);
      }
      if HeaderFine(bytes, fields) && WordsAt(bytes, sections, metadata, fields) {
        HeaderJoins(bytes, sections, metadata, base, pointer, fields);
      }
    }
  }

  lemma HeaderSplits(bytes: seq<byte>, sections: seq<Section>, metadata: u32, base: u64, pointer: u64, fields: seq<u32>)
    requires VaToRva(pointer, base) == Ok(metadata) && Header(bytes, sections, base, pointer) == Ok(fields)
    ensures HeaderFine(bytes, fields) && WordsAt(bytes, sections, metadata, fields)
  {
    hide Fields, WordsAt;
    var first := Fields(bytes, sections, metadata, 0, 1).value;
    var location := Fields(bytes, sections, metadata, 1, 3).value;
    var last := if first[0] >= 2 then 23 else 20;
    var others := Fields(bytes, sections, metadata, 3, last).value;
    assert fields == first + location + others;
    FieldsExactly(bytes, sections, metadata, 0, 1, first);
    FieldsExactly(bytes, sections, metadata, 1, 3, location);
    FieldsExactly(bytes, sections, metadata, 3, last, others);
    WordsConcat(bytes, sections, metadata, first, location);
    WordsConcat(bytes, sections, metadata, first + location, others);
  }

  lemma HeaderJoins(bytes: seq<byte>, sections: seq<Section>, metadata: u32, base: u64, pointer: u64, fields: seq<u32>)
    requires VaToRva(pointer, base) == Ok(metadata)
    requires HeaderFine(bytes, fields) && WordsAt(bytes, sections, metadata, fields)
    ensures Header(bytes, sections, base, pointer) == Ok(fields)
  {
    hide Fields, WordsAt;
    var first, location, others := fields[..1], fields[1..3], fields[3..];
    assert fields == first + location + others;
    WordsConcat(bytes, sections, metadata, first + location, others);
    WordsConcat(bytes, sections, metadata, first, location);
    FieldsExactly(bytes, sections, metadata, 0, 1, first);
    FieldsExactly(bytes, sections, metadata, 1, 3, location);
    FieldsExactly(bytes, sections, metadata, 3, |fields|, others);
  }

  // ----- Tables -----

  lemma EntryExactly(bytes: seq<byte>, sections: seq<Section>, table: u32, index: u32, words: seq<u32>)
    requires |words| == 2 || |words| == 3
    ensures Entry(bytes, sections, table, index, |words|) == Ok(words) <==>
            WordsAt(bytes, sections, table + 4 * |words| * index, words)
  {
    hide ReadU32At;
    var rva := table + index * (4 * |words|);
    assert rva == table + 4 * |words| * index;
    hide WordAt;
    WordsCons(bytes, sections, rva, words);
    WordsCons(bytes, sections, rva + 4, words[1..]);
    NoWords(bytes, sections, rva + 8);
    if |words| == 3 {
      WordsCons(bytes, sections, rva + 8, words[2..]);
      NoWords(bytes, sections, rva + 12);
      assert words[1..][1..] == words[2..] && words[2..][1..] == [];
    } else {
      assert words[1..][1..] == [];
    }
    EntryWords(bytes, sections, table, index, words);
  }

  lemma EntryWords(bytes: seq<byte>, sections: seq<Section>, table: u32, index: u32, words: seq<u32>)
    requires |words| == 2 || |words| == 3
    ensures var rva := table + index * (4 * |words|);
            Entry(bytes, sections, table, index, |words|) == Ok(words) <==>
            && WordAt(bytes, sections, rva, words[0]) && WordAt(bytes, sections, rva + 4, words[1])
            && (|words| == 3 ==> WordAt(bytes, sections, rva + 8, words[2]))
  {
    hide ReadAt, Le32;
    var rva := table + index * (4 * |words|);
    assert index * (4 * |words|) >= 0;
    if |words| == 2 {
      assert words == [words[0], words[1]];
    } else {
      assert words == [words[0], words[1], words[2]];
    }
    if rva < TWO_32 && ReadU32At(bytes, sections, rva).Ok? {
      assert rva + 4 < TWO_32;
      if ReadU32At(bytes, sections, rva + 4).Ok? {
        assert rva + 8 < TWO_32;
      }
    }
  }

  // The three words of an entry range, and the two of a redirection.

  function RangeWords(r: EntryRange): (w: seq<u32>)
    ensures |w| == 3
  {
    [r.start, r.end, r.entryPoint]
  }

  function RedirectionWords(r: Redirection): (w: seq<u32>)
    ensures |w| == 2
  {
    [r.source, r.destination]
  }

  /** Entry `index + i` of the table holds range `i`, which is in order and inside the image. */
  predicate RangeAt(bytes: seq<byte>, sections: seq<Section>, table: u32, index: nat, r: EntryRange, image: u32) {
    && WordsAt(bytes, sections, table + 12 * index, RangeWords(r))
    && r.start <= r.end <= image && r.entryPoint < image
  }

  predicate RangesAt(bytes: seq<byte>, sections: seq<Section>, table: u32, index: nat, rs: seq<EntryRange>,
                     image: u32) {
    forall i | 0 <= i < |rs| :: RangeAt(bytes, sections, table, index + i, rs[i], image)
  }

  lemma RangesCons(bytes: seq<byte>, sections: seq<Section>, table: u32, index: nat, rs: seq<EntryRange>, image: u32)
    requires rs != []
    ensures RangesAt(bytes, sections, table, index, rs, image) <==>
            RangeAt(bytes, sections, table, index, rs[0], image) &&
            RangesAt(bytes, sections, table, index + 1, rs[1..], image)
  {
    hide RangeAt;
    var rest := rs[1..];
    if RangesAt(bytes, sections, table, index, rs, image) {
      assert RangeAt(bytes, sections, table, index + 0, rs[0], image);
      forall i | 0 <= i < |rest|
        ensures RangeAt(bytes, sections, table, index + 1 + i, rest[i], image)
      {
        assert RangeAt(bytes, sections, table, index + (i + 1), rs[i + 1], image);
      }
    }
    if RangeAt(bytes, sections, table, index, rs[0], image) &&
       RangesAt(bytes, sections, table, index + 1, rest, image) {
      forall i | 0 <= i < |rs|
        ensures RangeAt(bytes, sections, table, index + i, rs[i], image)
      {
        if i > 0 {
          assert RangeAt(bytes, sections, table, index + 1 + (i - 1), rest[i - 1], image);
        }
      }
    }
  }

  lemma RangeExactly(bytes: seq<byte>, sections: seq<Section>, table: u32, index: u32, r: EntryRange, image: u32)
    ensures (Entry(bytes, sections, table, index, 3).Ok? &&
             DecodeEntryRange(Entry(bytes, sections, table, index, 3).value, image) == Ok(r)) <==>
            RangeAt(bytes, sections, table, index, r, image)
  {
    hide Entry, WordsAt;
    EntryExactly(bytes, sections, table, index, RangeWords(r));
    if Entry(bytes, sections, table, index, 3).Ok? {
      var words := Entry(bytes, sections, table, index, 3).value;
      assert words == [words[0], words[1], words[2]];
    }
  }

  /** The entry-point parser accepts exactly tables of ordered ranges inside the image, and answers those. */
  lemma {:induction false} EntryPointsExactly(bytes: seq<byte>, sections: seq<Section>, table: u32, index: u32,
                                              count: u32, image: u32, rs: seq<EntryRange>)
    requires index <= count
    ensures EntryPointsFrom(bytes, sections, table, index, count, image) == Ok(rs) <==>
            |rs| == count - index && RangesAt(bytes, sections, table, index, rs, image)
    decreases count - index
  {
    hide Entry, DecodeEntryRange, RangeAt, RangesAt;
    if index < count {
      if rs != [] {
        RangeExactly(bytes, sections, table, index, rs[0], image);
        RangesCons(bytes, sections, table, index, rs, image);
        EntryPointsExactly(bytes, sections, table, index + 1, count, image, rs[1..]);
        assert rs == [rs[0]] + rs[1..];
      }
    } else {
      assert RangesAt(bytes, sections, table, index, [], image) by { NoRanges(bytes, sections, table, index, image); }
    }
  }

  lemma NoRanges(bytes: seq<byte>, sections: seq<Section>, table: u32, index: nat, image: u32)
    ensures RangesAt(bytes, sections, table, index, [], image)
  {
  }

  predicate RedirectionAt(bytes: seq<byte>, sections: seq<Section>, table: u32, index: nat, r: Redirection,
                          image: u32) {
    && WordsAt(bytes, sections, table + 8 * index, RedirectionWords(r))
    && r.source < image && r.destination < image
  }

  predicate RedirectionsAt(bytes: seq<byte>, sections: seq<Section>, table: u32, index: nat, rs: seq<Redirection>,
                           image: u32)
  {
    forall i | 0 <= i < |rs| :: RedirectionAt(bytes, sections, table, index + i, rs[i], image)
  }

  lemma RedirectionsCons(bytes: seq<byte>, sections: seq<Section>, table: u32, index: nat, rs: seq<Redirection>,
                         image: u32)
    requires rs != []
    ensures RedirectionsAt(bytes, sections, table, index, rs, image) <==>
            RedirectionAt(bytes, sections, table, index, rs[0], image) &&
            RedirectionsAt(bytes, sections, table, index + 1, rs[1..], image)
  {
    hide RedirectionAt;
    var rest := rs[1..];
    if RedirectionsAt(bytes, sections, table, index, rs, image) {
      assert RedirectionAt(bytes, sections, table, index + 0, rs[0], image);
      forall i | 0 <= i < |rest|
        ensures RedirectionAt(bytes, sections, table, index + 1 + i, rest[i], image)
      {
        assert RedirectionAt(bytes, sections, table, index + (i + 1), rs[i + 1], image);
      }
    }
    if RedirectionAt(bytes, sections, table, index, rs[0], image) &&
       RedirectionsAt(bytes, sections, table, index + 1, rest, image) {
      forall i | 0 <= i < |rs|
        ensures RedirectionAt(bytes, sections, table, index + i, rs[i], image)
      {
        if i > 0 {
          assert RedirectionAt(bytes, sections, table, index + 1 + (i - 1), rest[i - 1], image);
        }
      }
    }
  }

  lemma RedirectionExactly(bytes: seq<byte>, sections: seq<Section>, table: u32, index: u32, r: Redirection, image: u32)
    ensures (Entry(bytes, sections, table, index, 2).Ok? &&
             DecodeRedirection(Entry(bytes, sections, table, index, 2).value, image) == Ok(r)) <==>
            RedirectionAt(bytes, sections, table, index, r, image)
  {
    hide Entry, WordsAt;
    EntryExactly(bytes, sections, table, index, RedirectionWords(r));
    if Entry(bytes, sections, table, index, 2).Ok? {
      var words := Entry(bytes, sections, table, index, 2).value;
      assert words == [words[0], words[1]];
    }
  }

  /** The redirection parser accepts exactly tables of pairs inside the image, source first, and answers those. */
  lemma {:induction false} RedirectionsExactly(bytes: seq<byte>, sections: seq<Section>, table: u32, index: u32,
                                               count: u32, image: u32, rs: seq<Redirection>)
    requires index <= count
    ensures RedirectionsFrom(bytes, sections, table, index, count, image) == Ok(rs) <==>
            |rs| == count - index && RedirectionsAt(bytes, sections, table, index, rs, image)
    decreases count - index
  {
    hide Entry, DecodeRedirection, RedirectionAt, RedirectionsAt;
    if index < count {
      if rs != [] {
        RedirectionExactly(bytes, sections, table, index, rs[0], image);
        RedirectionsCons(bytes, sections, table, index, rs, image);
        RedirectionsExactly(bytes, sections, table, index + 1, count, image, rs[1..]);
        assert rs == [rs[0]] + rs[1..];
      }
    } else {
      NoRedirections(bytes, sections, table, index, image);
    }
  }

  lemma NoRedirections(bytes: seq<byte>, sections: seq<Section>, table: u32, index: nat, image: u32)
    ensures RedirectionsAt(bytes, sections, table, index, [], image)
  {
  }

  // ----- The code map -----

  /** A code range's two words: its aligned start with the kind in the low bits, and its length. */
  predicate CodeRangeAt(bytes: seq<byte>, sections: seq<Section>, table: u32, index: nat, r: CodeRange) {
    && r.start % 4 == 0
    && var tag := match r.kind case Arm64 => 0 case Arm64Ec => 1 case Amd64 => 2;
    WordsAt(bytes, sections, table + 8 * index, [r.start + tag, r.length])
  }

  lemma CodeMapIsWords(bytes: seq<byte>, sections: seq<Section>, table: u32, count: u32, image: u32,
                       ranges: seq<CodeRange>)
    ensures CodeMapFrom(bytes, sections, table, 0, count, 0, image) == Ok(ranges) <==>
            && |ranges| == count && SortedDisjoint(ranges, image)
            && forall i | 0 <= i < |ranges| :: CodeRangeAt(bytes, sections, table, i, ranges[i])
  {
    hide Entry, CodeMapFrom, SortedDisjoint, WordsAt, CheckFrom;
    CodeMapExactly(bytes, sections, table, 0, count, 0, image, ranges);
    SortedExactly(ranges, 0, image);
    if |ranges| == count && Aligned(ranges) {
      forall i | 0 <= i < |ranges|
        ensures Entry(bytes, sections, table, i, 2) == Ok(Encode(ranges[i])) <==>
                CodeRangeAt(bytes, sections, table, i, ranges[i])
      {
        EntryExactly(bytes, sections, table, i, Encode(ranges[i]));
      }
      assert Stored(bytes, sections, table, 0, ranges) <==>
             forall i | 0 <= i < |ranges| :: Entry(bytes, sections, table, 0 + i, 2) == Ok(Encode(ranges[i]));
    }
  }

  // ----- Whole metadata -----

  /**
  A file is accepted as these metadata if and only if its header words are
  acceptable and its three tables are, word for word, the three lists.
  */
  lemma ParsesExactly(bytes: seq<byte>, sections: seq<Section>, base: u64, image: u32, pointer: u64, m: Metadata)
    ensures Parse(bytes, sections, base, image, pointer) == Ok(m) <==>
            && pointer > 0 && Located(pointer, base) < TWO_32
            && HeaderFine(bytes, m.fields) && WordsAt(bytes, sections, Located(pointer, base), m.fields)
            && |m.codeMap| == m.fields[CODE_MAP_COUNT] && SortedDisjoint(m.codeMap, image)
            && (forall i | 0 <= i < |m.codeMap| ::
                  CodeRangeAt(bytes, sections, m.fields[CODE_MAP_RVA], i, m.codeMap[i]))
            && |m.entryPoints| == m.fields[ENTRY_POINTS_COUNT]
            && RangesAt(bytes, sections, m.fields[ENTRY_POINTS_RVA], 0, m.entryPoints, image)
            && |m.redirections| == m.fields[REDIRECTIONS_COUNT]
            && RedirectionsAt(bytes, sections, m.fields[REDIRECTIONS_RVA], 0, m.redirections, image)
  {
    hide Header, CodeMapFrom, EntryPointsFrom, RedirectionsFrom, WordsAt, SortedDisjoint, CodeRangeAt, RangesAt;
    hide RedirectionsAt;
    HeaderExactly(bytes, sections, base, pointer, m.fields);
    if HeaderFine(bytes, m.fields) {
      CodeMapIsWords(bytes, sections, m.fields[CODE_MAP_RVA], m.fields[CODE_MAP_COUNT], image, m.codeMap);
      EntryPointsExactly(bytes, sections, m.fields[ENTRY_POINTS_RVA], 0, m.fields[ENTRY_POINTS_COUNT], image,
                         m.entryPoints);
      RedirectionsExactly(bytes, sections, m.fields[REDIRECTIONS_RVA], 0, m.fields[REDIRECTIONS_COUNT], image,
                          m.redirections);
    }
  }

  // ----- Routing -----

  predicate FirstRange(rs: seq<EntryRange>, rva: u32, i: nat) {
    i < |rs| && rs[i].start <= rva < rs[i].end && forall j | 0 <= j < i :: !(rs[j].start <= rva < rs[j].end)
  }

  predicate FirstSource(rs: seq<Redirection>, rva: u32, i: nat) {
    i < |rs| && rs[i].source == rva && forall j | 0 <= j < i :: rs[j].source != rva
  }

  lemma {:induction false} EntryTargetExactly(rs: seq<EntryRange>, rva: u32)
    ensures EntryTarget(rs, rva).None? <==> forall i | 0 <= i < |rs| :: !(rs[i].start <= rva < rs[i].end)
    ensures forall i: nat | FirstRange(rs, rva, i) :: EntryTarget(rs, rva) == Some(rs[i].entryPoint)
  {
    if rs != [] {
      EntryTargetExactly(rs[1..], rva);
      assert forall i | 0 < i < |rs| :: rs[i] == rs[1..][i - 1];
      forall i: nat | FirstRange(rs, rva, i)
        ensures EntryTarget(rs, rva) == Some(rs[i].entryPoint)
      {
        if i > 0 {
          assert forall j | 0 <= j < i - 1 :: rs[1..][j] == rs[j + 1];
          assert FirstRange(rs[1..], rva, i - 1);
        }
      }
    }
  }

  lemma {:induction false} RedirectTargetExactly(rs: seq<Redirection>, rva: u32)
    ensures RedirectTarget(rs, rva).None? <==> forall i | 0 <= i < |rs| :: rs[i].source != rva
    ensures forall i: nat | FirstSource(rs, rva, i) :: RedirectTarget(rs, rva) == Some(rs[i].destination)
  {
    if rs != [] {
      RedirectTargetExactly(rs[1..], rva);
      assert forall i | 0 < i < |rs| :: rs[i] == rs[1..][i - 1];
      forall i: nat | FirstSource(rs, rva, i)
        ensures RedirectTarget(rs, rva) == Some(rs[i].destination)
      {
        if i > 0 {
          assert forall j | 0 <= j < i - 1 :: rs[1..][j] == rs[j + 1];
          assert FirstSource(rs[1..], rva, i - 1);
        }
      }
    }
  }

  /**
  An address goes to the entry point of the first range around it, else to where the
  first redirection of it leads.
  */
  lemma RoutesExactly(m: Metadata, rva: u32)
    ensures forall i: nat | FirstRange(m.entryPoints, rva, i) ::
              RouteEntryPoint(m, rva) == Some(m.entryPoints[i].entryPoint)
    ensures (forall i | 0 <= i < |m.entryPoints| :: !(m.entryPoints[i].start <= rva < m.entryPoints[i].end)) ==>
              && (forall i: nat | FirstSource(m.redirections, rva, i) ::
                    RouteEntryPoint(m, rva) == Some(m.redirections[i].destination))
              && (RouteEntryPoint(m, rva).None? <==>
                  forall i | 0 <= i < |m.redirections| :: m.redirections[i].source != rva)
  {
    hide EntryTarget, RedirectTarget;
    EntryTargetExactly(m.entryPoints, rva);
    RedirectTargetExactly(m.redirections, rva);
  }
}
