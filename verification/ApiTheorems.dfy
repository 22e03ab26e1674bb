/** What the aggregation, the seeding pass, the gates and the lookups promise each other. */
module ApiTheorems {
  import opened Wrappers
  import opened ApiModel

  // ----- Aggregation -----

  /** The fold is the worst row: it is below a bound exactly when every row is. */
  lemma {:induction false} WorstExactly(rows: seq<MethodRow>, k: nat)
    ensures Severity(WorstOf(rows).implementation) <= k <==> forall r | r in rows :: Severity(r.implementation) <= k
    ensures FidelityRank(WorstOf(rows).fidelity) <= k <==> forall r | r in rows :: FidelityRank(r.fidelity) <= k
    ensures CapabilityRank(WorstOf(rows).capability) <= k <==> forall r | r in rows :: CapabilityRank(r.capability) <= k
    ensures k <= 4 ==> (CoverageRank(WorstOf(rows).coverage) >= k <==>
                        forall r | r in rows :: CoverageRank(r.coverage) >= k)
    decreases |rows|
  {
    hide Severity, FidelityRank, CapabilityRank, CoverageRank;
    if rows == [] {
      BestRanks();
    } else {
      var before, last := rows[..|rows| - 1], rows[|rows| - 1];
      WorstExactly(before, k);
      assert forall r :: r in rows <==> r in before || r == last by { LastOrBefore(rows); }
    }
  }

  lemma BestRanks()
    ensures Severity(BEST.implementation) == FidelityRank(BEST.fidelity) == CapabilityRank(BEST.capability) == 0
    ensures CoverageRank(BEST.coverage) == 4
  {
  }

  lemma LastOrBefore<T>(s: seq<T>)
    requires s != []
    ensures forall x :: x in s <==> x in s[..|s| - 1] || x == s[|s| - 1]
  {
    assert s == s[..|s| - 1] + [s[|s| - 1]];
  }

  lemma {:induction false} RequiredExactly(rows: seq<MethodRow>, r: MethodRow)
    ensures r in RequiredRows(rows) <==> r in rows && r.required
    decreases |rows|
  {
    if rows != [] {
      RequiredExactly(rows[..|rows| - 1], r);
      LastOrBefore(rows);
    }
  }

  /** Required rows decide when there are any. */
  lemma ConsideredExactly(rows: seq<MethodRow>, r: MethodRow)
    ensures r in Considered(rows) <==> r in rows && (r.required || forall x | x in rows :: !x.required)
  {
    hide RequiredRows;
    RequiredExactly(rows, r);
    if RequiredRows(rows) == [] {
      forall x | x in rows
        ensures !x.required
      {
        RequiredExactly(rows, x);
      }
    } else {
      var x := RequiredRows(rows)[0];
      RequiredExactly(rows, x);
    }
  }

  lemma {:induction false} ProvenExactly(rows: seq<MethodRow>)
    ensures Unproven(rows) == [] <==> forall r | r in rows :: Proven(r.coverage)
    decreases |rows|
  {
    hide Proven;
    if rows != [] {
      ProvenExactly(rows[..|rows| - 1]);
      LastOrBefore(rows);
    }
  }

  // ----- Seeding satisfies the interface gate -----

  /** An interface's entry, where there is one, carries the worst status of the interface's rows. */
  predicate Settled(s: State, key: Key) {
    var at := Find(s.entries, key);
    at < |s.entries| ==>
      var rows := RowsOf(s.rows, key);
      && rows != []
      && s.entries[at].fidelity == WorstOf(Considered(rows)).fidelity
      && s.entries[at].capability == WorstOf(Considered(rows)).capability
  }

  lemma {:induction false} FindUnique(entries: seq<Entry>, key: Key, at: nat)
    requires at <= |entries| && (at < |entries| ==> EntryKey(entries[at]) == key)
    requires forall i | 0 <= i < at :: EntryKey(entries[i]) != key
    ensures Find(entries, key) == at
  {
    hide EntryKey;
    var f := Find(entries, key);
    assert f <= at && at <= f;
  }

  /** Deriving an entry moves no key and touches the entry of no other key. */
  lemma DerivedKeeps(entries: seq<Entry>, key: Key, w: Worst, other: Key)
    ensures Find(Derived(entries, key, w), other) == Find(entries, other)
    ensures other != key && Find(entries, other) < |entries| ==>
              Derived(entries, key, w)[Find(entries, other)] == entries[Find(entries, other)]
  {
    hide Find, KeyOf;
    var after := Derived(entries, key, w);
    assert forall i | 0 <= i < |entries| :: EntryKey(after[i]) == EntryKey(entries[i]);
    FindUnique(after, other, Find(entries, other));
  }

  lemma SeedOneSettles(t: Tables, s: State, i: Interface)
    requires i.methods != []
    ensures Settled(SeedOne(t, s, i), InterfaceKey(i))
  {
    hide Find, KeyOf, RowsOf, WorstOf, Considered;
    RowsPresent(t, s.rows, i);
    var rows := RowsOf(s.rows + SeedRows(t, i), InterfaceKey(i));
    DerivedKeeps(s.entries, InterfaceKey(i), AggregateOf(rows).value.worst, InterfaceKey(i));
  }

  lemma SeedOneKeeps(t: Tables, s: State, i: Interface, key: Key)
    requires i.methods != [] && Settled(s, key)
    ensures Settled(SeedOne(t, s, i), key)
  {
    hide Find, KeyOf, RowsOf, WorstOf, Considered;
    if key == InterfaceKey(i) {
      SeedOneSettles(t, s, i);
    } else {
      RowsPresent(t, s.rows, i);
      var rows := RowsOf(s.rows + SeedRows(t, i), InterfaceKey(i));
      DerivedKeeps(s.entries, InterfaceKey(i), AggregateOf(rows).value.worst, key);
      RowsOfConcat(s.rows, SeedRows(t, i), key);
      RowsOfAll(SeedRows(t, i), key, InterfaceKey(i));
      assert RowsOf(s.rows, key) + [] == RowsOf(s.rows, key);
    }
  }

  /** After seeding, every interface of the surface is settled, duplicates included. */
  lemma {:induction false} SeedingSettles(t: Tables, s: State, surface: seq<Interface>, i: Interface)
    requires Seedable(surface) && i in surface
    ensures Settled(SeedAll(t, s, surface), InterfaceKey(i))
    decreases |surface|
  {
    hide Settled, SeedOne, KeyOf;
    var before, last := surface[..|surface| - 1], surface[|surface| - 1];
    LastOrBefore(surface);
    if InterfaceKey(i) == InterfaceKey(last) {
      SeedOneSettles(t, SeedAll(t, s, before), last);
    } else {
      SeedingSettles(t, s, before, i);
      SeedOneKeeps(t, SeedAll(t, s, before), last, InterfaceKey(i));
    }
  }

  lemma {:induction false} SeededRowsKnown(t: Tables, entries: seq<Entry>, surface: seq<Interface>, r: MethodRow)
    requires Seedable(surface) && r in SeedAll(t, State(entries, []), surface).rows
    ensures RowKey(r) in Known(surface)
    decreases |surface|
  {
    hide KeyOf, RowsOf, Derived, AggregateOf;
    if surface != [] {
      var before, last := surface[..|surface| - 1], surface[|surface| - 1];
      LastOrBefore(surface);
      var s := SeedAll(t, State(entries, []), before);
      assert SeedAll(t, State(entries, []), surface).rows == s.rows + SeedRows(t, last);
      if r in s.rows {
        SeededRowsKnown(t, entries, before, r);
      }
    }
  }

  lemma {:induction false} NoUnknown(rows: seq<MethodRow>, known: set<Key>)
    requires forall r | r in rows :: RowKey(r) in known
    ensures UnknownFindings(rows, known) == []
    decreases |rows|
  {
    hide RowKey;
    if rows != [] {
      NoUnknown(rows[..|rows| - 1], known);
    }
  }

  lemma SettledFindings(s: State, i: Interface)
    requires Settled(s, InterfaceKey(i))
    ensures forall v | v in InterfaceFindings(s, i) :: v.kind == InterfaceClaimsUnprovenMethods
    ensures InterfaceFindings(s, i) == [] <==>
            Find(s.entries, InterfaceKey(i)) == |s.entries| || !Overclaims(RowsOf(s.rows, InterfaceKey(i)))
  {
    hide Find, KeyOf, RowsOf;
    var at, rows := Find(s.entries, InterfaceKey(i)), RowsOf(s.rows, InterfaceKey(i));
    if at < |s.entries| {
      ClaimsExactly(rows);
      ProvenExactly(Considered(rows));
    }
  }

  /** Rows whose worst claim is exact or full while one of them is not semantically proven. */
  predicate Overclaims(rows: seq<MethodRow>) {
    && ((forall r | r in Considered(rows) :: r.fidelity == Exact) ||
        (forall r | r in Considered(rows) :: r.capability == Full))
    && exists r | r in Considered(rows) :: !Proven(r.coverage)
  }

  lemma ClaimsExactly(rows: seq<MethodRow>)
    ensures WorstOf(Considered(rows)).fidelity == Exact <==> forall r | r in Considered(rows) :: r.fidelity == Exact
    ensures WorstOf(Considered(rows)).capability == Full <==> forall r | r in Considered(rows) :: r.capability == Full
  {
    hide WorstOf, Considered, FidelityRank, CapabilityRank;
    WorstExactly(Considered(rows), 0);
    RankZero();
  }

  lemma RankZero()
    ensures forall x :: FidelityRank(x) <= 0 <==> x == Exact
    ensures forall x :: CapabilityRank(x) <= 0 <==> x == Full
  {
  }

  // ----- What the tables say -----

  /** The rows that seeding gives one interface, over the whole surface. */
  function SurfaceRows(t: Tables, surface: seq<Interface>, key: Key): seq<MethodRow> {
    if surface == [] then []
    else
      var last := surface[|surface| - 1];
      SurfaceRows(t, surface[..|surface| - 1], key) + if InterfaceKey(last) == key then SeedRows(t, last) else []
  }

  lemma {:induction false} SeededRows(t: Tables, entries: seq<Entry>, surface: seq<Interface>, key: Key)
    requires Seedable(surface)
    ensures RowsOf(SeedAll(t, State(entries, []), surface).rows, key) == SurfaceRows(t, surface, key)
    ensures Find(SeedAll(t, State(entries, []), surface).entries, key) == Find(entries, key)
    ensures |SeedAll(t, State(entries, []), surface).entries| == |entries|
    decreases |surface|
  {
    if surface != [] {
      hide Find, KeyOf, RowsOf, WorstOf, Considered, AggregateOf;
      var before, last := surface[..|surface| - 1], surface[|surface| - 1];
      var s := SeedAll(t, State(entries, []), before);
      SeededRows(t, entries, before, key);
      RowsPresent(t, s.rows, last);
      var rows := RowsOf(s.rows + SeedRows(t, last), InterfaceKey(last));
      RowsAggregated(rows);
      DerivedKeeps(s.entries, InterfaceKey(last), AggregateOf(rows).value.worst, key);
      RowsOfConcat(s.rows, SeedRows(t, last), key);
      RowsOfAll(SeedRows(t, last), key, InterfaceKey(last));
    }
  }

  lemma RowsAggregated(rows: seq<MethodRow>)
    requires rows != []
    ensures AggregateOf(rows).Some?
  {
  }

  predicate Listed(surface: seq<Interface>, key: Key, i: Interface, m: SurfaceMethod) {
    i in surface && InterfaceKey(i) == key && m in i.methods
  }

  /** A listed method that decides the aggregate: a required one, or any when none is required. */
  predicate Decides(surface: seq<Interface>, key: Key, i: Interface, m: SurfaceMethod) {
    && Listed(surface, key, i, m)
    && (m.required || forall j, n | j in surface && n in j.methods && InterfaceKey(j) == key :: !n.required)
  }

  /** Every deciding method is claimed exact, and the evidence of one of them is no semantic proof. */
  ghost predicate UnprovenClaim(t: Tables, surface: seq<Interface>, key: Key) {
    && (forall i, m | Decides(surface, key, i, m) :: Claimed(t, i, m))
    && exists i, m :: Decides(surface, key, i, m) && !Proven(SeedRow(t, i, m).coverage)
  }

  lemma {:induction false} SurfaceRowFrom(t: Tables, surface: seq<Interface>, key: Key, r: MethodRow)
    returns (i: Interface, m: SurfaceMethod)
    requires r in SurfaceRows(t, surface, key)
    ensures Listed(surface, key, i, m) && r == SeedRow(t, i, m)
    decreases |surface|
  {
    hide KeyOf, SeedRow;
    var before, last := surface[..|surface| - 1], surface[|surface| - 1];
    if r in SurfaceRows(t, before, key) {
      i, m := SurfaceRowFrom(t, before, key, r);
    } else {
      var k :| 0 <= k < |SeedRows(t, last)| && SeedRows(t, last)[k] == r;
      i, m := last, last.methods[k];
    }
  }

  lemma {:induction false} ListedHasRow(t: Tables, surface: seq<Interface>, key: Key, i: Interface, m: SurfaceMethod)
    requires Listed(surface, key, i, m)
    ensures SeedRow(t, i, m) in SurfaceRows(t, surface, key)
    decreases |surface|
  {
    hide KeyOf, SeedRow;
    var before, last := surface[..|surface| - 1], surface[|surface| - 1];
    LastOrBefore(surface);
    if i == last {
      var k :| 0 <= k < |last.methods| && last.methods[k] == m;
      assert SeedRows(t, last)[k] == SeedRow(t, i, m);
    } else {
      ListedHasRow(t, before, key, i, m);
    }
  }

  lemma NoneRequired(t: Tables, surface: seq<Interface>, key: Key)
    ensures (forall x | x in SurfaceRows(t, surface, key) :: !x.required) <==>
            (forall j, n | j in surface && n in j.methods && InterfaceKey(j) == key :: !n.required)
  {
    hide KeyOf, SurfaceRows;
    var rows := SurfaceRows(t, surface, key);
    if x :| x in rows && x.required {
      var i, m := SurfaceRowFrom(t, surface, key, x);
    } else {
      forall j, n | j in surface && n in j.methods && InterfaceKey(j) == key
        ensures !n.required
      {
        ListedHasRow(t, surface, key, j, n);
      }
    }
  }

  lemma DecidingRow(t: Tables, surface: seq<Interface>, key: Key, i: Interface, m: SurfaceMethod)
    requires Decides(surface, key, i, m)
    ensures SeedRow(t, i, m) in Considered(SurfaceRows(t, surface, key))
  {
    hide KeyOf, SurfaceRows, Considered;
    ListedHasRow(t, surface, key, i, m);
    NoneRequired(t, surface, key);
    ConsideredExactly(SurfaceRows(t, surface, key), SeedRow(t, i, m));
  }

  lemma DecidingMethod(t: Tables, surface: seq<Interface>, key: Key, r: MethodRow)
    returns (i: Interface, m: SurfaceMethod)
    requires r in Considered(SurfaceRows(t, surface, key))
    ensures Decides(surface, key, i, m) && r == SeedRow(t, i, m)
  {
    hide KeyOf, SurfaceRows, Considered;
    ConsideredExactly(SurfaceRows(t, surface, key), r);
    NoneRequired(t, surface, key);
    i, m := SurfaceRowFrom(t, surface, key, r);
  }

  /** The condition on the seeded rows, said of the tables. */
  lemma OverclaimsExactly(t: Tables, surface: seq<Interface>, key: Key)
    ensures Overclaims(SurfaceRows(t, surface, key)) <==> UnprovenClaim(t, surface, key)
  {
    hide KeyOf, SurfaceRows, Considered, Decides;
    var rows := SurfaceRows(t, surface, key);
    if Overclaims(rows) {
      forall i, m | Decides(surface, key, i, m)
        ensures Claimed(t, i, m)
      {
        DecidingRow(t, surface, key, i, m);
      }
      var r :| r in Considered(rows) && !Proven(r.coverage);
      var i, m := DecidingMethod(t, surface, key, r);
      assert Decides(surface, key, i, m) && !Proven(SeedRow(t, i, m).coverage);
    }
    if UnprovenClaim(t, surface, key) {
      forall r | r in Considered(rows)
        ensures r.fidelity == Exact
      {
        var i, m := DecidingMethod(t, surface, key, r);
      }
      var i, m :| Decides(surface, key, i, m) && !Proven(SeedRow(t, i, m).coverage);
      DecidingRow(t, surface, key, i, m);
    }
  }

  lemma {:induction false} FindingsFrom(s: State, surface: seq<Interface>)
    requires forall i | i in surface :: Settled(s, InterfaceKey(i))
    ensures forall v | v in AllInterfaceFindings(s, surface) :: v.kind == InterfaceClaimsUnprovenMethods
    ensures AllInterfaceFindings(s, surface) == [] <==> forall i | i in surface :: InterfaceFindings(s, i) == []
    decreases |surface|
  {
    hide Settled, InterfaceFindings, KeyOf;
    if surface != [] {
      LastOrBefore(surface);
      FindingsFrom(s, surface[..|surface| - 1]);
      SettledFindings(s, surface[|surface| - 1]);
    }
  }

  /**
  Seeding a database without method rows leaves no overstated, missing or unknown
  interface. It leaves no finding at all exactly when no interface that has an
  entry makes an unproven claim in the tables.
  */
  lemma SeedingPassesGate(t: Tables, entries: seq<Entry>, surface: seq<Interface>)
    requires Seedable(surface)
    ensures var gate := InterfaceGate(SeedAll(t, State(entries, []), surface), surface);
            && (forall v | v in gate :: v.kind == InterfaceClaimsUnprovenMethods)
            && (gate == [] <==> forall i | i in surface ::
                  Find(entries, InterfaceKey(i)) < |entries| ==> !UnprovenClaim(t, surface, InterfaceKey(i)))
  {
    hide SeedAll, Settled, InterfaceFindings, AllInterfaceFindings, UnknownFindings, Find, KeyOf,
         UnprovenClaim, Overclaims;
    var s := SeedAll(t, State(entries, []), surface);
    forall r | r in s.rows
      ensures RowKey(r) in Known(surface)
    {
      SeededRowsKnown(t, entries, surface, r);
    }
    NoUnknown(s.rows, Known(surface));
    forall i | i in surface
      ensures Settled(s, InterfaceKey(i))
      ensures InterfaceFindings(s, i) == [] <==>
              (Find(entries, InterfaceKey(i)) < |entries| ==> !UnprovenClaim(t, surface, InterfaceKey(i)))
    {
      SeedingSettles(t, State(entries, []), surface, i);
      SettledFindings(s, i);
      SeededRows(t, entries, surface, InterfaceKey(i));
      OverclaimsExactly(t, surface, InterfaceKey(i));
    }
    FindingsFrom(s, surface);
  }

  /** With only Differential and Conformance evidence, the gate is empty. */
  lemma ProvenTablesPassGate(t: Tables, entries: seq<Entry>, surface: seq<Interface>)
    requires Seedable(surface)
    requires forall i, m | i in surface && m in i.methods ::
               t.evidence(i.dll, i.name, m.name).Some? ==> Proven(t.evidence(i.dll, i.name, m.name).value)
    ensures InterfaceGate(SeedAll(t, State(entries, []), surface), surface) == []
  {
    hide SeedAll, InterfaceGate, Find, KeyOf;
    SeedingPassesGate(t, entries, surface);
  }

  /** Unit evidence is enough for an exact claim and not for the gate. */
  lemma UnitEvidenceFailsGate(e: Entry)
    ensures var t := Tables((d, i, m) => Some(Unit), (i, m) => false);
            var surface := [Interface(e.dll, e.name, [SurfaceMethod("Release", true)])];
            InterfaceGate(SeedAll(t, State([e], []), surface), surface) != []
  {
    hide SeedAll, InterfaceGate, KeyOf;
    var t := Tables((d, i, m) => Some(Unit), (i, m) => false);
    var i, m := Interface(e.dll, e.name, [SurfaceMethod("Release", true)]), SurfaceMethod("Release", true);
    assert m in i.methods && i in [i];
    assert Decides([i], InterfaceKey(i), i, m) && !Proven(SeedRow(t, i, m).coverage);
    SeedingPassesGate(t, [e], [i]);
  }

  // ----- Completeness implies shipping -----

  lemma {:induction false} EntryComplete(entries: seq<Entry>, tier: Tier, profile: Profile, e: Entry)
    requires AllCompletenessFindings(entries, tier, profile) == [] && e in entries
    ensures CompletenessFindings(e, tier, profile) == []
    decreases |entries|
  {
    hide CompletenessFindings;
    LastOrBefore(entries);
    if e != entries[|entries| - 1] {
      EntryComplete(entries[..|entries| - 1], tier, profile, e);
    }
  }

  lemma {:induction false} ShippingFrom(entries: seq<Entry>, deliberate: set<Key>, v: Violation) returns (i: nat)
    requires v in ShippingGate(entries, deliberate)
    ensures i < |entries| && v in ShippingFindings(FullKeys(entries[..i]), entries[i], deliberate)
    decreases |entries|
  {
    hide ShippingFindings;
    var last := |entries| - 1;
    if v in ShippingGate(entries[..last], deliberate) {
      i := ShippingFrom(entries[..last], deliberate, v);
      assert entries[..last][..i] == entries[..i];
    } else {
      i := last;
    }
  }

  lemma {:induction false} ShippingTo(entries: seq<Entry>, deliberate: set<Key>, i: nat, v: Violation)
    requires i < |entries| && v in ShippingFindings(FullKeys(entries[..i]), entries[i], deliberate)
    ensures v in ShippingGate(entries, deliberate)
    decreases |entries|
  {
    hide ShippingFindings;
    var last := |entries| - 1;
    if i < last {
      assert entries[..last][..i] == entries[..i];
      ShippingTo(entries[..last], deliberate, i, v);
    }
  }

  /**
  When the completeness gate is empty for user mode under a profile and for the
  kernel tier, the shipping gate reports nothing but duplicate keys, except about
  optional features that the profile excludes.
  */
  lemma CompletenessImpliesShipping(s: State, surface: seq<Interface>, profile: Profile, deliberate: set<Key>,
                                    v: Violation)
    requires CompletenessGate(s, surface, NativeUserMode, profile) == []
    requires CompletenessGate(s, surface, RestrictedKernel, profile) == []
    requires v in ShippingGate(s.entries, deliberate)
    ensures v.kind == LookupAmbiguity ||
            exists e :: e in s.entries && Excluded(e, profile) && v.dll == e.dll && v.name == e.name
  {
    hide ShippingGate, InterfaceGate, AllCompletenessFindings, FullKeys, KeyOf;
    var i := ShippingFrom(s.entries, deliberate, v);
    EntryComplete(s.entries, NativeUserMode, profile, s.entries[i]);
    EntryComplete(s.entries, RestrictedKernel, profile, s.entries[i]);
  }

  lemma NothingExcludedShips(s: State, surface: seq<Interface>, deliberate: set<Key>, v: Violation)
    requires CompletenessGate(s, surface, NativeUserMode, dll => false) == []
    requires CompletenessGate(s, surface, RestrictedKernel, dll => false) == []
    requires v in ShippingGate(s.entries, deliberate)
    ensures v.kind == LookupAmbiguity
  {
    hide CompletenessGate, ShippingGate;
    CompletenessImpliesShipping(s, surface, dll => false, deliberate, v);
  }

  /** The shipping gate reports an ambiguity exactly when two entries share a full key. */
  lemma AmbiguityExactly(entries: seq<Entry>, deliberate: set<Key>)
    ensures (forall v | v in ShippingGate(entries, deliberate) :: v.kind != LookupAmbiguity) <==> DistinctKeys(entries)
  {
    hide ShippingGate, FullKeyOf;
    if !DistinctKeys(entries) {
      var i, j :| 0 <= i < j < |entries| && FullKeyOf(entries[i]) == FullKeyOf(entries[j]);
      assert entries[i] in entries[..j];
      var v := Violation(entries[j].dll, entries[j].name, LookupAmbiguity);
      assert v in ShippingFindings(FullKeys(entries[..j]), entries[j], deliberate);
      ShippingTo(entries, deliberate, j, v);
    } else {
      forall v | v in ShippingGate(entries, deliberate)
        ensures v.kind != LookupAmbiguity
      {
        var i := ShippingFrom(entries, deliberate, v);
      }
    }
  }

  /** Adding a row only when its full key is free keeps full keys distinct. */
  lemma GuardedAddKeepsDistinct(entries: seq<Entry>, e: Entry)
    requires DistinctKeys(entries)
    ensures DistinctKeys(entries + [e]) <==> FullKeyOf(e) !in FullKeys(entries)
  {
    hide FullKeyOf;
    var all := entries + [e];
    if FullKeyOf(e) in FullKeys(entries) {
      var i :| 0 <= i < |entries| && FullKeyOf(entries[i]) == FullKeyOf(e);
      assert FullKeyOf(all[i]) == FullKeyOf(all[|entries|]);
    }
  }

  // ----- Lookup -----

  lemma {:induction false} LookUpFinds(entries: seq<Entry>, key: FullKey)
    ensures match LookUp(entries, key)
            case Some(e) => e in entries && FullKeyOf(e) == key
            case None => forall e | e in entries :: FullKeyOf(e) != key
    decreases |entries|
  {
    hide FullKeyOf;
    if entries != [] && FullKeyOf(entries[0]) != key {
      LookUpFinds(entries[1..], key);
    }
  }

  /** With distinct full keys, a lookup answers the one row of its key. */
  lemma LookUpExactly(entries: seq<Entry>, key: FullKey, e: Entry)
    requires DistinctKeys(entries)
    ensures LookUp(entries, key) == Some(e) <==> e in entries && FullKeyOf(e) == key
  {
    hide FullKeyOf, LookUp;
    LookUpFinds(entries, key);
  }

  /** With distinct full keys, no reordering of the rows changes any lookup. */
  lemma LookUpOrderIndependent(a: seq<Entry>, b: seq<Entry>, key: FullKey)
    requires DistinctKeys(a) && multiset(a) == multiset(b)
    ensures LookUp(a, key) == LookUp(b, key)
  {
    hide FullKeyOf, LookUp, DistinctKeys;
    LookUpFinds(a, key);
    LookUpFinds(b, key);
    assert forall e :: e in a <==> e in multiset(a);
    assert forall e :: e in b <==> e in multiset(b);
    if LookUp(b, key).Some? {
      LookUpExactly(a, key, LookUp(b, key).value);
    }
  }

  /** Two different rows with one full key make some reordering change a lookup. */
  lemma DuplicateOrderMatters(a: seq<Entry>, i: nat, j: nat) returns (b: seq<Entry>, c: seq<Entry>)
    requires i < |a| && j < |a| && a[i] != a[j] && FullKeyOf(a[i]) == FullKeyOf(a[j])
    ensures multiset(b) == multiset(a) == multiset(c)
    ensures LookUp(b, FullKeyOf(a[i])) != LookUp(c, FullKeyOf(a[i]))
  {
    hide FullKeyOf;
    b := ToFront(a, i);
    c := ToFront(a, j);
  }

  lemma ToFront(a: seq<Entry>, i: nat) returns (b: seq<Entry>)
    requires i < |a|
    ensures multiset(b) == multiset(a) && b != [] && b[0] == a[i]
  {
    b := [a[i]] + a[..i] + a[i + 1..];
    assert a == a[..i] + [a[i]] + a[i + 1..];
  }

  // ----- Coverage evidence -----

  /** A merged level reaches a bar exactly when the entry did or an applying row does. */
  lemma {:induction false} RaisedExactly(e: Entry, table: seq<Evidence>, k: nat)
    ensures CoverageRank(RaisedByAll(e, table).coverage) >= k <==>
            CoverageRank(e.coverage) >= k ||
            exists row | row in table :: Applies(row, e) && CoverageRank(row.level) >= k
    ensures RaisedByAll(e, table).(coverage := e.coverage) == e
    decreases |table|
  {
    hide KeyOf, CoverageRank;
    if table != [] {
      RaisedExactly(e, table[..|table| - 1], k);
      LastOrBefore(table);
    }
  }

  /** The order of the evidence does not matter, and a second merge changes nothing. */
  lemma EvidenceOrderIndependent(e: Entry, a: seq<Evidence>, b: seq<Evidence>)
    requires forall row :: row in a <==> row in b
    ensures RaisedByAll(e, a) == RaisedByAll(e, b)
    ensures RaisedByAll(RaisedByAll(e, a), b) == RaisedByAll(e, a)
  {
    hide RaisedByAll, KeyOf, CoverageRank;
    var x, y := RaisedByAll(e, a), RaisedByAll(e, b);
    RaisedExactly(e, a, CoverageRank(y.coverage));
    RaisedExactly(e, b, CoverageRank(x.coverage));
    RaisedExactly(e, a, CoverageRank(x.coverage));
    RaisedExactly(e, b, CoverageRank(y.coverage));
    RankInjective(x.coverage, y.coverage);
    var z := RaisedByAll(x, b);
    RaisedExactly(x, b, CoverageRank(z.coverage));
    RaisedExactly(x, b, CoverageRank(x.coverage));
    RaisedExactly(e, a, CoverageRank(z.coverage));
    RankInjective(x.coverage, z.coverage);
  }

  lemma RankInjective(x: Coverage, y: Coverage)
    ensures CoverageRank(x) == CoverageRank(y) <==> x == y
  {
  }
}
