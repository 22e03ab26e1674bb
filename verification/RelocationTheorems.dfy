/**
What holds of every relocation table the parser accepts and of every image it
is applied to: when its entries fit, which bytes they touch, what those bytes
become, and that the order of the entries does not matter.
*/
module RelocationTheorems {
  import opened Wrappers
  import opened Bytes
  import opened Relocations
  import opened RelocationApply
  import RelocationLayout
  import TableLayout

  // ----- What the parser guarantees of each entry -----

  predicate Parsed(e: Relocation, image: u32) {
    WellSized(e) && e.rva % e.size == 0 && InImage(e.rva, image)
  }

  predicate AllParsed(es: seq<Relocation>, image: u32): (b: bool)
    ensures b ==> AllWellSized(es)
  {
    forall i | 0 <= i < |es| :: Parsed(es[i], image)
  }

  lemma {:induction false} WordsParsed(w: seq<u16>, i: nat, page: u32, image: u32)
    requires page % 0x1000 == 0 && ParseWords(w, i, page, image).Ok?
    ensures AllParsed(ParseWords(w, i, page, image).value, image)
    decreases |w| - i
  {
    if i < |w| && w[i] != 0 {
      FixupParsed(w, i, page, image);
      hide ParseFixup, Parsed, InImage;
      WordsParsed(w, i + ParseFixup(w, i, page).value.1, page, image);
    }
  }

  lemma FixupParsed(w: seq<u16>, i: nat, page: u32, image: u32)
    requires i < |w| && page % 0x1000 == 0 && ParseFixup(w, i, page).Ok?
    requires InImage(ParseFixup(w, i, page).value.0.rva, image)
    ensures Parsed(ParseFixup(w, i, page).value.0, image)
  {
    hide InImage;
  }

  lemma {:induction false} FlattenConcat(a: seq<Block>, b: seq<Block>)
    ensures Flatten(a + b) == Flatten(a) + Flatten(b)
  {
    if a == [] {
      assert a + b == b;
    } else {
      assert (a + b)[1..] == a[1..] + b;
      FlattenConcat(a[1..], b);
    }
  }

  lemma {:induction false} BlocksParsed(data: seq<byte>, cursor: nat, image: u32)
    requires ParseBlocks(data, cursor, image).Ok?
    ensures AllParsed(Flatten(ParseBlocks(data, cursor, image).value), image)
    decreases |data| - cursor
  {
    hide BlockAt, ParseWords, Parsed;
    if cursor < |data| && BlockAt(data, cursor).value.Some? {
      var (page, size) := BlockAt(data, cursor).value.value;
      var w := Words(data[cursor + 8..cursor + size]);
      WordsParsed(w, 0, page, image);
      BlocksParsed(data, Align4(cursor + size), image);
      var head := [Block(page, ParseWords(w, 0, page, image).value)];
      var tail := ParseBlocks(data, Align4(cursor + size), image).value;
      FlattenConcat(head, tail);
      assert Flatten(head) == head[0].entries by { assert head[0].entries + [] == head[0].entries; }
    }
  }

  lemma {:induction false} RecordsParsed(version: nat, records: seq<byte>, cursor: nat, image: u32)
    requires (version == 1 || version == 2) && ParseRecords(version, records, cursor, image).Ok?
    ensures AllParsed(Flatten(ParseRecords(version, records, cursor, image).value), image)
    decreases |records| - cursor
  {
    hide RecordAt, ParseBlocks, Parsed;
    if cursor < |records| {
      var record := RecordAt(version, records, cursor).value;
      RecordsParsed(version, records, record.next, image);
      if record.symbol == ARM64X_SYMBOL {
        var body := records[record.start..record.end];
        BlocksParsed(body, 0, image);
        FlattenConcat(ParseBlocks(body, 0, image).value, ParseRecords(version, records, record.next, image).value);
      }
    }
  }

  lemma TableParsed(table: seq<byte>, image: u32)
    requires |table| >= 8 && ParseTable(table, image).Ok?
    ensures AllParsed(Flatten(ParseTable(table, image).value), image)
  {
    var version, size := Le32(table, 0), Le32(table, 4);
    RecordsParsed(version, table[8..8 + size], 0, image);
  }

  // ----- Parse, then apply -----

  /**
  The parser checks four bytes at every target although entries are up to eight
  bytes long; alignment makes up for it unless the image ends in a half word.
  */
  lemma ParsedFits(e: Relocation, image: u32)
    requires Parsed(e, image) && image % 8 < 4
    ensures Fits(e, image)
  {
    if e.size == 8 {
      var k := e.rva / 8;
      assert e.rva == 8 * k && image == 8 * (image / 8) + image % 8;
    }
  }

  /** Every accepted table applies to every image of at least the declared size. */
  ghost predicate AlwaysApplies(image: u32) {
    forall table: seq<byte>, m: seq<byte> ::
      |table| >= 8 && ParseTable(table, image).Ok? && |m| >= image &&
      AllWellSized(Flatten(ParseTable(table, image).value)) ==>
        ApplyAll(m, Flatten(ParseTable(table, image).value)).1
  }

  lemma AcceptedApplies(table: seq<byte>, image: u32, m: seq<byte>)
    requires |table| >= 8 && ParseTable(table, image).Ok? && |m| >= image && image % 8 < 4
    ensures AllWellSized(Flatten(ParseTable(table, image).value))
    ensures ApplyAll(m, Flatten(ParseTable(table, image).value)).1
  {
    hide ParseTable, Flatten;
    TableParsed(table, image);
    var es := Flatten(ParseTable(table, image).value);
    forall i | 0 <= i < |es|
      ensures Fits(es[i], |m|)
    {
      ParsedFits(es[i], image);
    }
  }

  /** Otherwise an accepted eight-byte zero fill runs past the image. */
  lemma AcceptedOverrun(image: u32) returns (table: seq<byte>, e: Relocation)
    requires image % 8 >= 4
    ensures |table| >= 8 && ParseTable(table, image).Ok?
    ensures Flatten(ParseTable(table, image).value) == [e] && WellSized(e) && !Fits(e, image)
  {
    var rva := image - image % 8;
    var fixup := RelocationLayout.Zero(rva % 0x1000, 3);
    var page := RelocationLayout.Page(rva - rva % 0x1000, [fixup]);
    OverrunPage(image, page, fixup);
    e := RelocationLayout.Entry(fixup, page.rva);
    var item := TableLayout.Item(TableLayout.Arm64X([page]), Zeros(4));
    table := OverrunTable(image, page, item);
    assert [e] + [] == [e];
  }

  lemma OverrunPage(image: u32, page: RelocationLayout.Page, fixup: RelocationLayout.Fixup)
    requires image % 8 >= 4
    requires var rva := image - image % 8;
             fixup == RelocationLayout.Zero(rva % 0x1000, 3) &&
             page == RelocationLayout.Page(rva - rva % 0x1000, [fixup])
    ensures RelocationLayout.ValidPage(page, image)
    ensures RelocationLayout.Entry(fixup, page.rva) == Relocation(image - image % 8, 8, 0, ZeroFill)
    ensures RelocationLayout.BlockOf(page, image).entries == [RelocationLayout.Entry(fixup, page.rva)]
    ensures |RelocationLayout.PageBytes(page, image)| == 12
  {
    var rva := image - image % 8;
    assert rva % 8 == 0;
    assert RelocationLayout.Valid(fixup, page.rva, image);
    assert [fixup][1..] == [];
    assert RelocationLayout.AllWords([fixup]) == RelocationLayout.FixupWords(fixup);
  }

  lemma OverrunTable(image: u32, page: RelocationLayout.Page, item: TableLayout.Item) returns (table: seq<byte>)
    requires RelocationLayout.ValidPage(page, image) && |RelocationLayout.PageBytes(page, image)| == 12
    requires item == TableLayout.Item(TableLayout.Arm64X([page]), Zeros(4))
    ensures |table| >= 8 && ParseTable(table, image) == Ok([RelocationLayout.BlockOf(page, image)])
  {
    hide RelocationLayout.ValidPage, RelocationLayout.PageBytes, RelocationLayout.BlockOf, ParseTable;
    assert [page][1..] == [] && [item][1..] == [];
    assert |RelocationLayout.PagesBytes([page], image)| == 12;
    assert TableLayout.ValidItem(1, item, image);
    assert |TableLayout.ItemsBytes(1, [item], image)| == |TableLayout.ItemBytes(1, item, image)| < TWO_32;
    table := TableLayout.TableBytes(1, [item], image, []);
    TableLayout.TableRoundTrip(1, [item], image, []);
    assert RelocationLayout.BlocksOf([page], image) == [RelocationLayout.BlockOf(page, image)];
    assert TableLayout.ItemsBlocks(1, [item], image) == RelocationLayout.BlocksOf([page], image);
  }

  /** The exact condition on SizeOfImage under which parsing implies applying. */
  lemma AppliesExactly(image: u32)
    ensures AlwaysApplies(image) <==> image % 8 < 4
  {
    hide ParseTable, Flatten, ApplyAll;
    if image % 8 < 4 {
      forall table: seq<byte>, m: seq<byte> | |table| >= 8 && ParseTable(table, image).Ok? && |m| >= image
        ensures AllWellSized(Flatten(ParseTable(table, image).value))
        ensures ApplyAll(m, Flatten(ParseTable(table, image).value)).1
      {
        AcceptedApplies(table, image, m);
      }
    } else {
      var table, e := AcceptedOverrun(image);
      var m := Zeros(image);
      var es := Flatten(ParseTable(table, image).value);
      assert es[0] == e && !Fits(es[0], |m|);
      assert !ApplyAll(m, es).1;
    }
  }

  // ----- What applying does to the memory -----

  predicate Untouched(es: seq<Relocation>, i: nat) {
    forall k | 0 <= k < |es| :: !Covers(es[k], i)
  }

  /** No byte outside the targets changes, on success or on failure. */
  lemma {:induction false} Frame(m: seq<byte>, es: seq<Relocation>, i: nat)
    requires AllWellSized(es) && i < |m| && Untouched(es, i)
    ensures ApplyAll(m, es).0[i] == m[i]
    decreases |es|
  {
    hide WellSized, Covers;
    if es != [] && Fits(es[0], |m|) {
      assert Untouched(es[1..], i);
      Frame(ApplyOne(m, es[0]), es[1..], i);
    }
  }

  predicate PairwiseApart(es: seq<Relocation>) {
    forall i, j | 0 <= i < j < |es| :: Apart(es[i], es[j])
  }

  /** A patch depends only on the bytes at its own target. */
  lemma PatchIsLocal(m: seq<byte>, n: seq<byte>, e: Relocation)
    requires WellSized(e) && Fits(e, |m|) && |n| == |m|
    requires forall i | 0 <= i < |m| && Covers(e, i) :: m[i] == n[i]
    ensures Patch(m, e) == Patch(n, e)
  {
    if e.kind.Delta? {
      assert m[e.rva..e.rva + 4] == n[e.rva..e.rva + 4];
      SameBytesSameWord(m, e.rva, n, e.rva);
    }
  }

  /**
  With disjoint targets every target holds the patch of the original memory,
  whatever was applied before and after it.
  */
  lemma {:induction false} Pointwise(m: seq<byte>, es: seq<Relocation>, k: nat, i: nat)
    requires AllWellSized(es) && PairwiseApart(es) && (forall j | 0 <= j < |es| :: Fits(es[j], |m|))
    requires k < |es| && Covers(es[k], i)
    ensures ApplyAll(m, es).0[i] == Patch(m, es[k])[i - es[k].rva]
    decreases |es|
  {
    var next := ApplyOne(m, es[0]);
    if k == 0 {
      assert Untouched(es[1..], i) by {
        assert forall j | 0 < j < |es| :: Apart(es[0], es[j]);
      }
      Frame(next, es[1..], i);
    } else {
      assert Apart(es[0], es[k]);
      PatchIsLocal(m, next, es[k]);
      Pointwise(next, es[1..], k - 1, i);
    }
  }

  lemma TwiceInMultiset<T>(s: seq<T>, t: seq<T>, i: nat, j: nat) returns (a: nat, b: nat)
    requires multiset(s) == multiset(t)
    requires i < j < |s| && s[i] == s[j]
    ensures a < b < |t| && t[a] == t[b] == s[i]
  {
    var x := s[i];
    assert s == s[..i] + [x] + s[i + 1..j] + [x] + s[j + 1..];
    assert multiset(s)[x] >= 2;
    a, b := TwoOccurrences(t, x);
  }

  lemma {:induction false} TwoOccurrences<T>(t: seq<T>, x: T) returns (a: nat, b: nat)
    requires multiset(t)[x] >= 2
    ensures a < b < |t| && t[a] == t[b] == x
  {
    assert t == [t[0]] + t[1..];
    if t[0] == x {
      assert x in multiset(t[1..]);
      assert x in t[1..];
      var c :| 0 <= c < |t[1..]| && t[1..][c] == x;
      a, b := 0, c + 1;
    } else {
      a, b := TwoOccurrences(t[1..], x);
      a, b := a + 1, b + 1;
    }
  }

  lemma ReorderedApart(es: seq<Relocation>, fs: seq<Relocation>)
    requires AllWellSized(es) && PairwiseApart(es) && multiset(es) == multiset(fs)
    ensures AllWellSized(fs) && PairwiseApart(fs)
  {
    forall i | 0 <= i < |fs|
      ensures WellSized(fs[i])
    {
      assert fs[i] in multiset(fs) && fs[i] in multiset(es) && fs[i] in es;
    }
    forall i, j | 0 <= i < j < |fs|
      ensures Apart(fs[i], fs[j])
    {
      if fs[i] == fs[j] {
        var a, b := TwiceInMultiset(fs, es, i, j);
        assert false;
      }
      assert fs[i] in multiset(fs) && fs[j] in multiset(fs);
      assert fs[i] in es && fs[j] in es;
      var a :| 0 <= a < |es| && es[a] == fs[i];
      var b :| 0 <= b < |es| && es[b] == fs[j];
      assert a < b || b < a;
    }
  }

  /** Reordering entries with disjoint targets gives the same memory and the same verdict. */
  lemma OrderIndependent(m: seq<byte>, es: seq<Relocation>, fs: seq<Relocation>)
    requires AllWellSized(es) && PairwiseApart(es) && multiset(es) == multiset(fs)
    requires forall i | 0 <= i < |es| :: Fits(es[i], |m|)
    ensures AllWellSized(fs)
    ensures ApplyAll(m, es) == ApplyAll(m, fs)
  {
    hide WellSized, ApplyAll;
    ReorderedApart(es, fs);
    forall k | 0 <= k < |fs|
      ensures fs[k] in es && Fits(fs[k], |m|)
    {
      assert fs[k] in multiset(fs) && fs[k] in multiset(es);
    }
    forall k | 0 <= k < |es|
      ensures es[k] in fs
    {
      assert es[k] in multiset(es) && es[k] in multiset(fs);
    }
    var left, right := ApplyAll(m, es).0, ApplyAll(m, fs).0;
    forall i | 0 <= i < |m|
      ensures left[i] == right[i]
    {
      SameByte(m, es, fs, i);
    }
    assert left == right;
  }

  lemma SameByte(m: seq<byte>, es: seq<Relocation>, fs: seq<Relocation>, i: nat)
    requires AllWellSized(es) && PairwiseApart(es) && (forall j | 0 <= j < |es| :: Fits(es[j], |m|) && es[j] in fs)
    requires AllWellSized(fs) && PairwiseApart(fs) && (forall j | 0 <= j < |fs| :: Fits(fs[j], |m|) && fs[j] in es)
    requires i < |m|
    ensures ApplyAll(m, es).0[i] == ApplyAll(m, fs).0[i]
  {
    hide WellSized, ApplyAll, Apart, Fits;
    if k :| 0 <= k < |es| && Covers(es[k], i) {
      var l :| 0 <= l < |fs| && fs[l] == es[k];
      Pointwise(m, es, k, i);
      Pointwise(m, fs, l, i);
    } else {
      assert Untouched(fs, i);
      Frame(m, es, i);
      Frame(m, fs, i);
    }
  }

  // ----- What each kind of patch means -----

  function Negated(e: Relocation): Relocation {
    e.(value := (TWO_64 - e.value) % TWO_64)
  }

  /** A delta is undone by the opposite delta, wrap-around included. */
  lemma DeltaUndone(m: seq<byte>, e: Relocation)
    requires WellSized(e) && e.kind.Delta? && Fits(e, |m|)
    ensures ApplyOne(ApplyOne(m, e), Negated(e)) == m
  {
    hide Le32, Bytes32, Bytes64, Negated;
    var moved := ApplyOne(m, e);
    var before, after := Le32(m, e.rva), (Le32(m, e.rva) + e.value) % TWO_32;
    assert moved[e.rva..e.rva + 4] == Bytes32(after);
    ReadBack32(moved, e.rva, after);
    NegatedBack(e, before);
    WriteBack32(m, e.rva);
    Restored(m, moved, e, Negated(e));
  }

  lemma NegatedBack(e: Relocation, before: u32)
    ensures Negated(e) == e.(value := Negated(e).value)
    ensures ((before + e.value) % TWO_32 + Negated(e).value) % TWO_32 == before
  {
    WrapBack(before, e.value);
  }

  /** An entry that patches the old bytes back in restores the memory. */
  lemma Restored(m: seq<byte>, moved: seq<byte>, e: Relocation, f: Relocation)
    requires WellSized(e) && WellSized(f) && Fits(e, |m|) && |moved| == |m| && f.rva == e.rva && f.size == e.size
    requires forall i | 0 <= i < |m| && !Covers(e, i) :: moved[i] == m[i]
    requires Patch(moved, f) == m[e.rva..e.rva + e.size]
    ensures ApplyOne(moved, f) == m
  {
    hide Patch;
    var back := ApplyOne(moved, f);
    assert forall i | 0 <= i < |m| :: back[i] == m[i];
  }

  lemma WrapBack(a: u32, d: u64)
    ensures ((a + d) % TWO_32 + (TWO_64 - d) % TWO_64) % TWO_32 == a
  {
    var q := (a + d) / TWO_32;
    if d == 0 {
    } else {
      assert (a + d) % TWO_32 + (TWO_64 - d) == a + TWO_32 * (TWO_32 - q);
    }
  }

  /** A value patch leaves the value's low bytes, little-endian, at the target. */
  lemma ValueStored(m: seq<byte>, e: Relocation)
    requires WellSized(e) && e.kind.Value? && Fits(e, |m|)
    ensures var r := ApplyOne(m, e);
            && (e.size == 2 ==> Le16(r, e.rva) == e.value % TWO_16)
            && (e.size == 4 ==> Le32(r, e.rva) == e.value % TWO_32)
            && (e.size == 8 ==> Le64(r, e.rva) == e.value)
  {
    var r := ApplyOne(m, e);
    assert r[e.rva..e.rva + e.size] == Bytes64(e.value)[..e.size];
    if e.size == 2 {
      assert Bytes64(e.value)[..2] == Bytes16(e.value % TWO_32 % TWO_16);
      ReadBack16(r, e.rva, e.value % TWO_32 % TWO_16);
    } else if e.size == 4 {
      assert Bytes64(e.value)[..4] == Bytes32(e.value % TWO_32);
      ReadBack32(r, e.rva, e.value % TWO_32);
    } else if e.size == 8 {
      assert Bytes64(e.value)[..8] == Bytes64(e.value);
      ReadBack64(r, e.rva, e.value);
    }
  }
}
