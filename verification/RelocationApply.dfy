/** Patching a mapped image in place with the entries of a relocation table. */
module RelocationApply {
  import opened Bytes
  import opened Relocations

  /** The sizes the parser produces. */
  predicate WellSized(e: Relocation) {
    (e.size == 1 || e.size == 2 || e.size == 4 || e.size == 8) && (e.kind.Delta? ==> e.size == 4)
  }

  predicate AllWellSized(es: seq<Relocation>) {
    forall i | 0 <= i < |es| :: WellSized(es[i])
  }

  predicate Fits(e: Relocation, length: nat) {
    e.rva + e.size <= length
  }

  predicate Covers(e: Relocation, i: nat) {
    e.rva <= i < e.rva + e.size
  }

  predicate Apart(a: Relocation, b: Relocation) {
    a.rva + a.size <= b.rva || b.rva + b.size <= a.rva
  }

  /** The bytes an entry leaves at its target, given the memory it is applied to. */
  function Patch(m: seq<byte>, e: Relocation): (b: seq<byte>)
    requires WellSized(e) && Fits(e, |m|)
    ensures |b| == e.size
  {
    match e.kind
    case ZeroFill => Zeros(e.size)
    case Value => Bytes64(e.value)[..e.size]
    case Delta => Bytes32((Le32(m, e.rva) + e.value) % TWO_32)
  }

  function ApplyOne(m: seq<byte>, e: Relocation): (r: seq<byte>)
    requires WellSized(e) && Fits(e, |m|)
    ensures |r| == |m|
    ensures forall i | 0 <= i < |m| :: r[i] == if Covers(e, i) then Patch(m, e)[i - e.rva] else m[i]
  {
    m[..e.rva] + Patch(m, e) + m[e.rva + e.size..]
  }

  /** Entries are applied in order; the first that does not fit stops the pass. */
  function ApplyAll(m: seq<byte>, es: seq<Relocation>): (r: (seq<byte>, bool))
    requires AllWellSized(es)
    ensures |r.0| == |m|
    ensures r.1 <==> forall i | 0 <= i < |es| :: Fits(es[i], |m|)
    decreases |es|
  {
    if es == [] then (m, true)
    else if !Fits(es[0], |m|) then (m, false)
    else ApplyAll(ApplyOne(m, es[0]), es[1..])
  }

  function Flatten(blocks: seq<Block>): seq<Relocation> {
    if blocks == [] then [] else blocks[0].entries + Flatten(blocks[1..])
  }

  // ----- The loop, in place -----

  method ApplyEntry(memory: array<byte>, e: Relocation) returns (ok: bool)
    requires WellSized(e)
    modifies memory
    ensures ok <==> Fits(e, memory.Length)
    ensures memory[..] == if ok then ApplyOne(old(memory[..]), e) else old(memory[..])
  {
    ghost var before := memory[..];
    var offset, end := e.rva, e.rva + e.size;
    if end > memory.Length {
      return false;
    }
    match e.kind {
      case ZeroFill =>
        forall i | offset <= i < end {
          memory[i] := 0;
        }
      case Value =>
        var bytes := Bytes64(e.value);
        forall i | offset <= i < end {
          memory[i] := bytes[i - offset];
        }
      case Delta =>
        var current := Le32(memory[..], offset);
        var bytes := Bytes32((current + e.value) % TWO_32);
        forall i | offset <= i < end {
          memory[i] := bytes[i - offset];
        }
    }
    ghost var after := ApplyOne(before, e);
    assert forall i | 0 <= i < memory.Length :: memory[i] == after[i];
    return true;
  }

  method ApplyEntries(entries: seq<Relocation>, ghost later: seq<Relocation>, memory: array<byte>) returns (ok: bool)
    requires AllWellSized(entries) && AllWellSized(later)
    modifies memory
    ensures ApplyAll(old(memory[..]), entries + later) ==
            if ok then ApplyAll(memory[..], later) else (memory[..], false)
  {
    hide ApplyOne, WellSized;
    ghost var goal := ApplyAll(memory[..], entries + later);
    var k := 0;
    assert entries[0..] + later == entries + later;
    while k < |entries|
      invariant 0 <= k <= |entries|
      invariant AllWellSized(entries[k..] + later)
      invariant ApplyAll(memory[..], entries[k..] + later) == goal
    {
      ghost var todo := entries[k..] + later;
      assert todo[0] == entries[k] && todo[1..] == entries[k + 1..] + later;
      ok := ApplyEntry(memory, entries[k]);
      if !ok {
        return false;
      }
      k := k + 1;
    }
    assert entries[k..] + later == later;
    return true;
  }

  method ApplyRelocations(blocks: seq<Block>, memory: array<byte>) returns (ok: bool)
    requires AllWellSized(Flatten(blocks))
    modifies memory
    ensures (memory[..], ok) == ApplyAll(old(memory[..]), Flatten(blocks))
  {
    ghost var goal := ApplyAll(memory[..], Flatten(blocks));
    assert blocks[0..] == blocks && blocks[|blocks|..] == [];
    hide ApplyAll, AllWellSized, Flatten;
    var b := 0;
    while b < |blocks|
      invariant 0 <= b <= |blocks|
      invariant AllWellSized(Flatten(blocks[b..]))
      invariant ApplyAll(memory[..], Flatten(blocks[b..])) == goal
    {
      FlattenFrom(blocks, b);
      ok := ApplyEntries(blocks[b].entries, Flatten(blocks[b + 1..]), memory);
      if !ok {
        return false;
      }
      b := b + 1;
    }
    NothingToApply(memory[..]);
    return true;
  }

  lemma FlattenFrom(blocks: seq<Block>, b: nat)
    requires b < |blocks|
    ensures Flatten(blocks[b..]) == blocks[b].entries + Flatten(blocks[b + 1..])
    ensures AllWellSized(Flatten(blocks[b..])) ==>
            AllWellSized(blocks[b].entries) && AllWellSized(Flatten(blocks[b + 1..]))
  {
    hide WellSized;
    assert blocks[b..][1..] == blocks[b + 1..];
    var a, c := blocks[b].entries, Flatten(blocks[b + 1..]);
    assert forall i | 0 <= i < |a| :: (a + c)[i] == a[i];
    assert forall i | 0 <= i < |c| :: (a + c)[|a| + i] == c[i];
  }

  lemma NothingToApply(m: seq<byte>)
    ensures Flatten([]) == [] && AllWellSized([]) && ApplyAll(m, []) == (m, true)
  {
  }
}
