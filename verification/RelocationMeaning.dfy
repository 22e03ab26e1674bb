/**
What a linker's fixups do to memory, from the bytes of a table to the words of
the patched image, stated on the memory alone.
*/
module RelocationMeaning {
  import opened Wrappers
  import opened Bytes
  import opened Relocations
  import opened RelocationApply
  import opened RelocationLayout
  import opened RelocationTheorems
  import opened TableLayout

  // ----- The bound -----

  /** Four bytes at the target are inside the image, or the target is at the very end of the largest one. */
  lemma InImageExactly(rva: u32, image: u32)
    ensures InImage(rva, image) <==> rva + 4 <= image || (image == 0xffff_ffff && rva < image)
  {
  }

  // ----- One fixup -----

  function Width(f: Fixup): nat {
    match f
    case Shift(_, _, _, _) => 4
    case _ => if f.log == 0 then 1 else if f.log == 1 then 2 else if f.log == 2 then 4 else 8
  }

  /** The number a fixup adds to the word at its target. */
  function Amount(f: Fixup): int
    requires f.Shift?
  {
    var distance := f.count as int * (if f.eights then 8 else 4);
    if f.negative then -distance else distance
  }

  /** `after` is what a fixup at `rva` makes of `before`, at its own target. */
  predicate Means(f: Fixup, rva: nat, before: seq<byte>, after: seq<byte>)
    requires Encodable(f) && rva + Width(f) <= |before| == |after|
  {
    match f
    case Zero(_, _) => forall i | rva <= i < rva + Width(f) :: after[i] == 0
    case Store(_, log, value) =>
      if log == 1 then Le16(after, rva) == value
      else if log == 2 then Le32(after, rva) == value
      else Le64(after, rva) == value
    case Shift(_, _, _, _) => Le32(after, rva) == (Le32(before, rva) + Amount(f)) % TWO_32
  }

  lemma EntryShape(f: Fixup, page: u32)
    requires Encodable(f) && page % 0x1000 == 0
    ensures var e := Entry(f, page);
            && WellSized(e) && e.rva == page + f.offset && e.size == Width(f)
            && (f.Zero? <==> e.kind.ZeroFill?) && (f.Store? <==> e.kind.Value?) && (f.Shift? <==> e.kind.Delta?)
            && (f.Store? ==> e.value == f.value)
  {
  }

  /** The 64-bit pattern of a delta stands for the signed amount, modulo 2^32. */
  lemma DeltaIsSigned(f: Fixup, page: u32, w: u32)
    requires f.Shift? && Encodable(f) && page % 0x1000 == 0
    ensures (w + Entry(f, page).value) % TWO_32 == (w + Amount(f)) % TWO_32
  {
    if Amount(f) < 0 {
      Wraps(w + Amount(f));
    }
  }

  lemma Wraps(n: int)
    ensures (n + TWO_64) % TWO_32 == n % TWO_32
  {
    assert n + TWO_64 == TWO_32 * (n / TWO_32 + TWO_32) + n % TWO_32;
  }

  /** Bytes that are the patch of an entry mean its fixup. */
  lemma PatchMeans(f: Fixup, page: u32, before: seq<byte>, after: seq<byte>)
    requires Encodable(f) && page % 0x1000 == 0 && |before| == |after| && page + f.offset + Width(f) <= |before|
    requires WellSized(Entry(f, page)) && Fits(Entry(f, page), |before|)
    requires after[page + f.offset..page + f.offset + Width(f)] == Patch(before, Entry(f, page))
    ensures Means(f, page + f.offset, before, after)
  {
    hide Entry, Le16, Le32, Le64, Bytes16, Bytes32, Bytes64;
    var e, rva := Entry(f, page), page + f.offset;
    EntryShape(f, page);
    match f
    case Zero(_, _) => assert forall i | rva <= i < rva + Width(f) :: after[i] == after[rva..rva + Width(f)][i - rva];
    case Store(_, _, _) => StoreMeans(f, e, rva, after);
    case Shift(_, _, _, _) =>
      ReadBack32(after, rva, (Le32(before, rva) + e.value) % TWO_32);
      DeltaIsSigned(f, page, Le32(before, rva));
  }

  lemma StoreMeans(f: Fixup, e: Relocation, rva: nat, after: seq<byte>)
    requires f.Store? && Encodable(f) && e.value == f.value && rva + Width(f) <= |after|
    requires after[rva..rva + Width(f)] == Bytes64(e.value)[..Width(f)]
    ensures Means(f, rva, after, after)
  {
    var b := Bytes64(f.value);
    if f.log == 1 {
      assert b[..2] == Bytes16(f.value);
      ReadBack16(after, rva, f.value);
    } else if f.log == 2 {
      assert b[..4] == Bytes32(f.value);
      ReadBack32(after, rva, f.value);
    } else {
      assert b[..8] == b;
      ReadBack64(after, rva, f.value);
    }
  }

  /** Applying the entry of a fixup does what the fixup means, whatever the memory. */
  lemma FixupApplied(f: Fixup, page: u32, m: seq<byte>)
    requires Encodable(f) && page % 0x1000 == 0 && page + f.offset + Width(f) <= |m|
    ensures WellSized(Entry(f, page)) && Fits(Entry(f, page), |m|)
    ensures Means(f, page + f.offset, m, ApplyOne(m, Entry(f, page)))
  {
    hide Entry, Patch, Means;
    var e, rva := Entry(f, page), page + f.offset;
    EntryShape(f, page);
    var after := ApplyOne(m, e);
    assert after[rva..rva + Width(f)] == Patch(m, e);
    PatchMeans(f, page, m, after);
  }

  // ----- Whole tables -----

  /** A fixup of an ARM64X record of a list. */
  predicate Holds(items: seq<Item>, page: Page, f: Fixup) {
    exists i | 0 <= i < |items| :: items[i].content.Arm64X? && page in items[i].content.pages && f in page.fixups
  }

  lemma {:induction false} EntryOfPage(fs: seq<Fixup>, page: u32, f: Fixup)
    requires page % 0x1000 == 0 && AllEncodable(fs) && f in fs
    ensures Encodable(f) && Entry(f, page) in Entries(fs, page)
  {
    hide Entry, Encodable;
    if f != fs[0] {
      assert f in fs[1..];
      EntryOfPage(fs[1..], page, f);
    }
  }

  lemma {:induction false} EntryOfPages(ps: seq<Page>, image: u32, p: Page, f: Fixup)
    requires ValidPages(ps, image) && p in ps && f in p.fixups
    ensures p.rva % 0x1000 == 0 && Encodable(f) && Entry(f, p.rva) in Flatten(BlocksOf(ps, image))
  {
    hide Entry, Encodable, Entries;
    assert ValidPage(ps[0], image);
    if p == ps[0] {
      EntryOfPage(p.fixups, p.rva, f);
      assert BlocksOf(ps, image)[0] == BlockOf(p, image);
    } else {
      assert p in ps[1..];
      EntryOfPages(ps[1..], image, p, f);
      assert BlocksOf(ps, image)[1..] == BlocksOf(ps[1..], image);
    }
  }

  lemma {:induction false} EntryOfItems(version: nat, items: seq<Item>, image: u32, p: Page, f: Fixup)
    requires ValidItems(version, items, image) && Holds(items, p, f)
    ensures p.rva % 0x1000 == 0 && Encodable(f) && Entry(f, p.rva) in Flatten(ItemsBlocks(version, items, image))
  {
    hide Entry, Encodable, BlocksOf, ValidPage, Body;
    assert ValidItem(version, items[0], image);
    var rest := ItemsBlocks(version, items[1..], image);
    var i :| 0 <= i < |items| && items[i].content.Arm64X? && p in items[i].content.pages && f in p.fixups;
    if items[0].content.Arm64X? {
      FlattenConcat(BlocksOf(items[0].content.pages, image), rest);
    } else {
      assert [] + rest == rest;
    }
    if i == 0 {
      EntryOfPages(items[0].content.pages, image, p, f);
    } else {
      assert items[1..][i - 1] == items[i];
      EntryOfItems(version, items[1..], image, p, f);
    }
  }

  /**
  A table of either version, written, parsed and applied to any memory in which its
  targets fit and are disjoint, does to each target what the fixup written for it
  means.
  */
  lemma TableMeans(version: nat, items: seq<Item>, image: u32, tail: seq<byte>, m: seq<byte>, p: Page, f: Fixup)
    requires (version == 1 || version == 2) && ValidItems(version, items, image)
    requires |ItemsBytes(version, items, image)| < TWO_32 && Holds(items, p, f)
    requires var parsed := ParseTable(TableBytes(version, items, image, tail), image);
             parsed.Ok? ==>
               var es := Flatten(parsed.value);
               PairwiseApart(es) && forall i | 0 <= i < |es| :: Fits(es[i], |m|)
    ensures var parsed := ParseTable(TableBytes(version, items, image, tail), image);
            && parsed.Ok? && AllWellSized(Flatten(parsed.value))
            && var (after, ok) := ApplyAll(m, Flatten(parsed.value));
            && ok && |after| == |m|
            && Encodable(f) && p.rva + f.offset + Width(f) <= |m|
            && Means(f, p.rva + f.offset, m, after)
  {
    hide ParseTable, TableBytes, ValidItems, ItemsBlocks, ItemsBytes, Flatten, Entry, Means, Encodable, Patch, Apart;
    hide Fits;
    TableRoundTrip(version, items, image, tail);
    TableParsed(TableBytes(version, items, image, tail), image);
    EntryOfItems(version, items, image, p, f);
    TargetMeans(Flatten(ItemsBlocks(version, items, image)), m, p.rva, f);
  }

  lemma TargetMeans(es: seq<Relocation>, m: seq<byte>, page: u32, f: Fixup)
    requires page % 0x1000 == 0 && Encodable(f) && Entry(f, page) in es
    requires AllWellSized(es) && PairwiseApart(es) && forall i | 0 <= i < |es| :: Fits(es[i], |m|)
    ensures ApplyAll(m, es).1 && page + f.offset + Width(f) <= |m|
    ensures Means(f, page + f.offset, m, ApplyAll(m, es).0)
  {
    hide Entry, Means, Encodable, Patch, Apart, ApplyAll, WellSized, Width;
    var e, rva, after := Entry(f, page), page + f.offset, ApplyAll(m, es).0;
    EntryShape(f, page);
    var k :| 0 <= k < |es| && es[k] == e;
    assert Fits(es[k], |m|);
    var patch := Patch(m, e);
    forall i | 0 <= i < Width(f)
      ensures after[rva..rva + Width(f)][i] == patch[i]
    {
      Pointwise(m, es, k, rva + i);
    }
    assert after[rva..rva + Width(f)] == patch;
    PatchMeans(f, page, m, after);
  }
}
