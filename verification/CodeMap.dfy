/**
CHPE code maps: which architecture the code at an address belongs to.
*/
module CodeMap {
  import opened Wrappers
  import opened Bytes
  import Sections

  datatype CodeKind = Arm64 | Arm64Ec | Amd64

  datatype CodeRange = CodeRange(start: u32, length: u32, kind: CodeKind)

  datatype MapError = MissingCodeMap | ZeroLength | Overflows | ExceedsImage | OverlapsOrUnsorted

  /** The saturating end the classifier uses. */
  function EndRva(r: CodeRange): u32 {
    Sections.SaturatingAdd(r.start, r.length)
  }

  predicate Contains(r: CodeRange, rva: u32) {
    r.start <= rva < EndRva(r)
  }

  /** First match in list order. */
  function CodeKindAt(ranges: seq<CodeRange>, rva: u32): Option<CodeKind> {
    if ranges == [] then None
    else if Contains(ranges[0], rva) then Some(ranges[0].kind)
    else CodeKindAt(ranges[1..], rva)
  }

  /** The check one entry has to pass after the entries before it. */
  function CheckRange(start: u32, length: u32, previousEnd: u32, image: u32): Result<u32, MapError> {
    if length == 0 then Err(ZeroLength)
    else if start + length >= TWO_32 then Err(Overflows)
    else if start + length > image then Err(ExceedsImage)
    else if start < previousEnd then Err(OverlapsOrUnsorted)
    else Ok(start + length)
  }

  function CheckFrom(ranges: seq<CodeRange>, previousEnd: u32, image: u32): Result<(), MapError> {
    if ranges == [] then Ok(())
    else
      match CheckRange(ranges[0].start, ranges[0].length, previousEnd, image)
      case Err(e) => Err(e)
      case Ok(end) => CheckFrom(ranges[1..], end, image)
  }

  /** Reject a code map that is empty, unsorted, overlapping or outside the image. */
  method ValidateCodeMap(ranges: seq<CodeRange>, image: u32) returns (r: Result<(), MapError>)
    ensures r.Ok? <==> ranges != [] && SortedDisjoint(ranges, image)
    ensures r == if ranges == [] then Err(MissingCodeMap) else CheckFrom(ranges, 0, image)
  {
    SortedExactly(ranges, 0, image);
    if ranges == [] {
      return Err(MissingCodeMap);
    }
    var previousEnd: u32 := 0;
    var i := 0;
    while i < |ranges|
      invariant 0 <= i <= |ranges|
      invariant CheckFrom(ranges, 0, image) == CheckFrom(ranges[i..], previousEnd, image)
    {
      assert ranges[i..][0] == ranges[i] && ranges[i..][1..] == ranges[i + 1..];
      var end := CheckRange(ranges[i].start, ranges[i].length, previousEnd, image);
      if end.Err? {
        return Err(end.error);
      }
      previousEnd := end.value;
      i := i + 1;
    }
    return Ok(());
  }

  predicate Inside(r: CodeRange, image: u32) {
    r.length > 0 && r.start + r.length <= image
  }

  /** What the check is for: nonempty ranges inside the image, each after the one before. */
  predicate SortedDisjoint(ranges: seq<CodeRange>, image: u32) {
    && (forall i | 0 <= i < |ranges| :: Inside(ranges[i], image))
    && (forall i, j | 0 <= i < j < |ranges| :: ranges[i].start + ranges[i].length <= ranges[j].start)
  }

  /** The running check accepts exactly the sorted, disjoint, in-image maps. */
  lemma {:induction false} SortedExactly(ranges: seq<CodeRange>, previousEnd: u32, image: u32)
    ensures CheckFrom(ranges, previousEnd, image).Ok? <==>
            SortedDisjoint(ranges, image) && (ranges == [] || previousEnd <= ranges[0].start)
  {
    if ranges != [] {
      var head, rest := ranges[0], ranges[1..];
      if CheckRange(head.start, head.length, previousEnd, image).Ok? {
        SortedExactly(rest, head.start + head.length, image);
        if SortedDisjoint(rest, image) && (rest == [] || head.start + head.length <= rest[0].start) {
          ConsSorted(ranges, image);
        } else if SortedDisjoint(ranges, image) {
          TailSorted(ranges, image);
        }
      } else if SortedDisjoint(ranges, image) {
        assert Inside(ranges[0], image);
      }
    }
  }

  lemma ConsSorted(ranges: seq<CodeRange>, image: u32)
    requires ranges != [] && Inside(ranges[0], image) && SortedDisjoint(ranges[1..], image)
    requires |ranges| == 1 || ranges[0].start + ranges[0].length <= ranges[1..][0].start
    ensures SortedDisjoint(ranges, image)
  {
    var rest := ranges[1..];
    forall i, j | 0 <= i < j < |ranges|
      ensures ranges[i].start + ranges[i].length <= ranges[j].start
    {
      if i > 0 {
        assert rest[i - 1].start + rest[i - 1].length <= rest[j - 1].start;
      } else if j > 1 {
        assert rest[0].start + rest[0].length <= rest[j - 1].start;
      }
    }
    assert forall i | 0 < i < |ranges| :: ranges[i] == rest[i - 1];
  }

  lemma TailSorted(ranges: seq<CodeRange>, image: u32)
    requires ranges != [] && SortedDisjoint(ranges, image)
    ensures SortedDisjoint(ranges[1..], image)
    ensures |ranges| == 1 || ranges[0].start + ranges[0].length <= ranges[1..][0].start
  {
  }

  // ----- Classification -----

  /** The end saturates, so the largest address belongs to no range. */
  lemma ContainsExactly(r: CodeRange, rva: u32)
    ensures Contains(r, rva) <==> r.start <= rva < r.start + r.length && rva < 0xffff_ffff
  {
  }

  /** On a valid map the first match is the only match. */
  lemma {:induction false} KindIsUnique(ranges: seq<CodeRange>, image: u32, rva: u32, k: nat)
    requires SortedDisjoint(ranges, image) && k < |ranges|
    requires ranges[k].start <= rva < ranges[k].start + ranges[k].length
    ensures CodeKindAt(ranges, rva) == Some(ranges[k].kind)
  {
    assert Inside(ranges[k], image);
    ContainsExactly(ranges[k], rva);
    if k > 0 {
      assert ranges[0].start + ranges[0].length <= ranges[k].start;
      TailSorted(ranges, image);
      KindIsUnique(ranges[1..], image, rva, k - 1);
    }
  }

  lemma {:induction false} NoKind(ranges: seq<CodeRange>, rva: u32)
    ensures CodeKindAt(ranges, rva).None? <==>
            forall k | 0 <= k < |ranges| ::
              !(ranges[k].start <= rva < ranges[k].start + ranges[k].length && rva < 0xffff_ffff)
  {
    if ranges != [] {
      ContainsExactly(ranges[0], rva);
    }
    if ranges != [] && !Contains(ranges[0], rva) {
      NoKind(ranges[1..], rva);
      var rest := ranges[1..];
      assert forall k | 0 < k < |ranges| :: ranges[k] == rest[k - 1];
    }
  }

  /** Classification does not depend on the order in which the ranges are listed. */
  lemma OrderIndependent(ranges: seq<CodeRange>, other: seq<CodeRange>, image: u32, rva: u32)
    requires SortedDisjoint(ranges, image) && multiset(ranges) == multiset(other)
    ensures CodeKindAt(other, rva) == CodeKindAt(ranges, rva)
  {
    var found := FirstMatch(other, rva);
    match found {
      case Some(r) =>
        assert r in multiset(other) && r in multiset(ranges);
        var k :| 0 <= k < |ranges| && ranges[k] == r;
        KindIsUnique(ranges, image, rva, k);
      case None =>
        forall k | 0 <= k < |ranges|
          ensures !Contains(ranges[k], rva)
        {
          assert ranges[k] in multiset(ranges) && ranges[k] in multiset(other);
        }
        NoKind(ranges, rva);
    }
  }

  lemma {:induction false} FirstMatch(ranges: seq<CodeRange>, rva: u32) returns (r: Option<CodeRange>)
    ensures r.Some? ==> r.value in ranges && Contains(r.value, rva) && CodeKindAt(ranges, rva) == Some(r.value.kind)
    ensures r.None? ==> CodeKindAt(ranges, rva).None? && forall s | s in ranges :: !Contains(s, rva)
  {
    if ranges == [] {
      r := None;
    } else if Contains(ranges[0], rva) {
      r := Some(ranges[0]);
    } else {
      r := FirstMatch(ranges[1..], rva);
    }
  }

  /** Binary search on the range starts, between `lo` and `hi`. */
  function SearchKind(ranges: seq<CodeRange>, rva: u32, lo: nat, hi: nat): Option<CodeKind>
    requires lo <= hi <= |ranges|
    decreases hi - lo
  {
    if lo == hi then None
    else
      var mid := (lo + hi) / 2;
      if rva < ranges[mid].start then SearchKind(ranges, rva, lo, mid)
      else if Contains(ranges[mid], rva) then Some(ranges[mid].kind)
      else SearchKind(ranges, rva, mid + 1, hi)
  }

  lemma {:induction false} SearchFinds(ranges: seq<CodeRange>, image: u32, rva: u32, lo: nat, hi: nat, k: nat)
    requires SortedDisjoint(ranges, image) && lo <= k < hi <= |ranges| && Contains(ranges[k], rva)
    ensures SearchKind(ranges, rva, lo, hi) == Some(ranges[k].kind)
    decreases hi - lo
  {
    var mid := (lo + hi) / 2;
    if mid < k {
      assert ranges[mid].start + ranges[mid].length <= ranges[k].start;
      SearchFinds(ranges, image, rva, mid + 1, hi, k);
    } else if k < mid {
      assert ranges[k].start + ranges[k].length <= ranges[mid].start;
      SearchFinds(ranges, image, rva, lo, mid, k);
    }
  }

  lemma {:induction false} SearchMisses(ranges: seq<CodeRange>, rva: u32, lo: nat, hi: nat)
    requires lo <= hi <= |ranges| && forall k | 0 <= k < |ranges| :: !Contains(ranges[k], rva)
    ensures SearchKind(ranges, rva, lo, hi).None?
    decreases hi - lo
  {
    if lo < hi {
      var mid := (lo + hi) / 2;
      SearchMisses(ranges, rva, lo, mid);
      SearchMisses(ranges, rva, mid + 1, hi);
    }
  }

  /** On a valid map the linear scan is a binary search. */
  lemma LinearIsBinary(ranges: seq<CodeRange>, image: u32, rva: u32)
    requires SortedDisjoint(ranges, image)
    ensures CodeKindAt(ranges, rva) == SearchKind(ranges, rva, 0, |ranges|)
  {
    if k :| 0 <= k < |ranges| && Contains(ranges[k], rva) {
      KindIsUnique(ranges, image, rva, k);
      SearchFinds(ranges, image, rva, 0, |ranges|, k);
    } else {
      NoKind(ranges, rva);
      SearchMisses(ranges, rva, 0, |ranges|);
    }
  }
}
