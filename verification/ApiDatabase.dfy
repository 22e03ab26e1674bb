/** The database object: its seeding, merging and gate loops against the model's functions. */
module ApiDatabase {
  import opened Wrappers
  import opened ApiModel
  import opened ApiTheorems

  /** The worst-child fold over the considered rows. */
  method AggregateStatus(rows: seq<MethodRow>) returns (r: Option<Aggregate>)
    ensures r == AggregateOf(rows)
  {
    if rows == [] {
      return None;
    }
    var required := [];
    for i := 0 to |rows|
      invariant required == RequiredRows(rows[..i])
    {
      assert rows[..i + 1][..i] == rows[..i];
      if rows[i].required {
        required := required + [rows[i]];
      }
    }
    assert rows[..|rows|] == rows;
    var considered := if required == [] then rows else required;
    var worst, unproven := Fold(considered);
    return Some(Aggregate(|rows|, |required|, worst, unproven == [], unproven));
  }

  method Fold(rows: seq<MethodRow>) returns (worst: Worst, unproven: seq<string>)
    ensures worst == WorstOf(rows) && unproven == Unproven(rows)
  {
    hide Worsened;
    worst, unproven := BEST, [];
    for i := 0 to |rows|
      invariant worst == WorstOf(rows[..i]) && unproven == Unproven(rows[..i])
    {
      assert rows[..i + 1][..i] == rows[..i];
      worst := Worsened(worst, rows[i]);
      if !Proven(rows[i].coverage) {
        unproven := unproven + [rows[i].name];
      }
    }
    assert rows[..|rows|] == rows;
  }

  class Database {
    var entries: seq<Entry>
    var rows: seq<MethodRow>
    var deliberate: map<Key, string>

    function Contents(): State
      reads this
    {
      State(entries, rows)
    }

    constructor ()
      ensures entries == [] && rows == [] && deliberate == map[]
    {
      entries, rows, deliberate := [], [], map[];
    }

    /** A skeleton row is added only when its full key is free. */
    method AddSkeleton(e: Entry)
      modifies this`entries
      ensures entries == old(entries) + if FullKeyOf(e) in FullKeys(old(entries)) then [] else [e]
      ensures DistinctKeys(old(entries)) ==> DistinctKeys(entries)
    {
      if DistinctKeys(entries) {
        GuardedAddKeepsDistinct(entries, e);
      }
      if !(exists x | x in entries :: FullKeyOf(x) == FullKeyOf(e)) {
        entries := entries + [e];
      }
    }

    /** The compatibility error declared for an API, under any spelling of its names. */
    function DeclaredError(dll: string, name: string): Option<string>
      reads this`deliberate
    {
      var key := KeyOf(dll, name);
      if key in deliberate then Some(deliberate[key]) else None
    }

    /**
    Every spelling of the API finds the error, no other API's answer changes, and its
    stubs pass the shipping gate.
    */
    method DeclareUnsupported(dll: string, name: string, error: string)
      modifies this`deliberate
      ensures forall d, n :: DeclaredError(d, n) ==
                if Stem(d) == Stem(dll) && Lower(n) == Lower(name) then Some(error) else old(DeclaredError(d, n))
      ensures forall seen, e |
                EntryKey(e) == KeyOf(dll, name) && (e.implementation.Stub? || e.implementation.Unsupported?) ::
                forall v | v in ShippingFindings(seen, e, deliberate.Keys) :: v.kind == LookupAmbiguity
    {
      hide Stem, Lower;
      deliberate := deliberate[KeyOf(dll, name) := error];
    }

    method MethodsOf(key: Key) returns (r: seq<MethodRow>)
      ensures r == RowsOf(rows, key)
    {
      hide KeyOf;
      r := [];
      for i := 0 to |rows|
        invariant r == RowsOf(rows[..i], key)
      {
        assert rows[..i + 1][..i] == rows[..i];
        if RowKey(rows[i]) == key {
          r := r + [rows[i]];
        }
      }
      assert rows[..|rows|] == rows;
    }

    method SeedInterface(t: Tables, i: Interface)
      requires i.methods != []
      modifies this`entries, this`rows
      ensures Contents() == SeedOne(t, old(Contents()), i)
    {
      hide KeyOf, RowsOf, AggregateOf, Find, SeedRow;
      ghost var start := rows;
      for k := 0 to |i.methods|
        invariant rows == start + SeedRows(t, i)[..k] && entries == old(entries)
      {
        assert SeedRows(t, i)[..k + 1] == SeedRows(t, i)[..k] + [SeedRow(t, i, i.methods[k])];
        rows := rows + [SeedRow(t, i, i.methods[k])];
      }
      assert SeedRows(t, i)[..|i.methods|] == SeedRows(t, i);
      RowsPresent(t, start, i);
      var mine := MethodsOf(InterfaceKey(i));
      var aggregate := AggregateStatus(mine);
      RowsAggregated(mine);
      entries := Derived(entries, InterfaceKey(i), aggregate.value.worst);
    }

    /** Every interface of the surface, in order, by `SeedInterface`. */
    method ApplySurface(t: Tables, surface: seq<Interface>)
      requires Seedable(surface)
      modifies this`entries, this`rows
      ensures Contents() == SeedAll(t, old(Contents()), surface)
    {
      hide SeedOne;
      for k := 0 to |surface|
        invariant Contents() == SeedAll(t, old(Contents()), surface[..k])
      {
        assert surface[..k + 1][..k] == surface[..k];
        SeedInterface(t, surface[k]);
      }
      assert surface[..|surface|] == surface;
    }

    method CheckInterfaces(surface: seq<Interface>) returns (v: seq<Violation>)
      ensures v == InterfaceGate(Contents(), surface)
    {
      hide KeyOf, InterfaceFindings;
      v := [];
      var known, reported := Known(surface), {};
      for k := 0 to |rows|
        invariant reported == RowKeys(rows[..k]) - known
        invariant v == UnknownFindings(rows[..k], known)
      {
        assert rows[..k + 1][..k] == rows[..k] && rows[..k + 1] == rows[..k] + [rows[k]];
        var key := RowKey(rows[k]);
        RowKeysThen(rows[..k], rows[k]);
        if key !in known && key !in reported {
          reported := reported + {key};
          v := v + [Violation(rows[k].dll, rows[k].iface, InterfaceUnknown)];
        }
      }
      assert rows[..|rows|] == rows;
      ghost var unknown := v;
      for k := 0 to |surface|
        invariant v == unknown + AllInterfaceFindings(Contents(), surface[..k])
      {
        assert surface[..k + 1][..k] == surface[..k];
        v := v + InterfaceFindings(Contents(), surface[k]);
      }
      assert surface[..|surface|] == surface;
    }

    lemma RowKeysThen(before: seq<MethodRow>, last: MethodRow)
      ensures RowKeys(before + [last]) == RowKeys(before) + {RowKey(last)}
    {
      hide KeyOf;
    }

    method CheckShipping() returns (v: seq<Violation>)
      ensures v == ShippingGate(entries, deliberate.Keys)
    {
      hide FullKeyOf, EntryKey;
      v := [];
      var seen := {};
      for k := 0 to |entries|
        invariant seen == FullKeys(entries[..k])
        invariant v == ShippingGate(entries[..k], deliberate.Keys)
      {
        assert entries[..k + 1][..k] == entries[..k] && entries[..k + 1] == entries[..k] + [entries[k]];
        v := v + ShippingFindings(seen, entries[k], deliberate.Keys);
        seen := seen + {FullKeyOf(entries[k])};
      }
      assert entries[..|entries|] == entries;
    }

    method CheckCompleteness(surface: seq<Interface>, tier: Tier, profile: Profile) returns (v: seq<Violation>)
      ensures v == CompletenessGate(Contents(), surface, tier, profile)
    {
      hide CompletenessFindings, InterfaceGate;
      v := [];
      for k := 0 to |entries|
        invariant v == AllCompletenessFindings(entries[..k], tier, profile)
      {
        assert entries[..k + 1][..k] == entries[..k];
        v := v + CompletenessFindings(entries[k], tier, profile);
      }
      assert entries[..|entries|] == entries;
      var interfaces := CheckInterfaces(surface);
      v := v + interfaces;
    }

    /** Row after row of evidence, every matching entry is raised. */
    method ApplyEvidence(table: seq<Evidence>)
      modifies this`entries
      ensures |entries| == |old(entries)|
      ensures forall i | 0 <= i < |entries| :: entries[i] == RaisedByAll(old(entries)[i], table)
    {
      hide Raised;
      for k := 0 to |table|
        invariant |entries| == |old(entries)|
        invariant forall i | 0 <= i < |entries| :: entries[i] == RaisedByAll(old(entries)[i], table[..k])
      {
        assert table[..k + 1][..k] == table[..k];
        entries := seq(|entries|, i requires 0 <= i < |entries| reads this => Raised(entries[i], table[k]));
      }
      assert table[..|table|] == table;
    }
  }
}
