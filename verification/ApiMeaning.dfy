/**
The API database in its own terms: which spellings name one API, and exactly
what each gate reports.
*/
module ApiMeaning {
  import opened Wrappers
  import opened ApiModel
  import opened ApiTheorems

  // ----- Spellings -----

  /** The characters that Unicode calls white space. */
  lemma SpaceTable(c: char)
    ensures IsSpace(c) <==>
            c as int in {0x9, 0xA, 0xB, 0xC, 0xD, 0x20, 0x85, 0xA0, 0x1680, 0x2000, 0x2001, 0x2002, 0x2003,
                         0x2004, 0x2005,
                         0x2006, 0x2007, 0x2008, 0x2009, 0x200A, 0x2028, 0x2029, 0x202F, 0x205F, 0x3000}
  {
  }

  predicate Spaces(s: string) {
    forall i | 0 <= i < |s| :: IsSpace(s[i])
  }

  /** Text that neither starts nor ends with a space. */
  predicate Tight(s: string) {
    s != [] ==> !IsSpace(s[0]) && !IsSpace(s[|s| - 1])
  }

  lemma {:induction false} TrimStartOf(a: string, s: string)
    requires Spaces(a) && (s != [] ==> !IsSpace(s[0]))
    ensures TrimStart(a + s) == s
    decreases |a|
  {
    hide IsSpace;
    if a == [] {
      assert a + s == s;
    } else {
      assert (a + s)[1..] == a[1..] + s;
      TrimStartOf(a[1..], s);
    }
  }

  lemma {:induction false} TrimEndOf(s: string, b: string)
    requires Spaces(b) && (s != [] ==> !IsSpace(s[|s| - 1]))
    ensures TrimEnd(s + b) == s
    decreases |b|
  {
    hide IsSpace;
    if b == [] {
      assert s + b == s;
    } else {
      assert (s + b)[..|s + b| - 1] == s + b[..|b| - 1];
      TrimEndOf(s, b[..|b| - 1]);
    }
  }

  /** Trimming takes exactly the spaces around a text. */
  lemma TrimOf(a: string, s: string, b: string)
    requires Spaces(a) && Tight(s) && Spaces(b)
    ensures TrimEnd(TrimStart(a + s + b)) == s
  {
    hide IsSpace, TrimStart, TrimEnd;
    if s == [] {
      assert a + s + b == (a + b) + [];
      TrimStartOf(a + b, []);
      TrimEndOf([], []);
      assert [] + [] == s;
    } else {
      assert a + s + b == a + (s + b);
      TrimStartOf(a, s + b);
      TrimEndOf(s, b);
    }
  }

  /** One letter, whatever its case; outside the ASCII letters only the same character. */
  predicate SameLetter(x: char, y: char) {
    || x == y
    || ('A' <= x <= 'Z' && y as int == x as int + 32)
    || ('A' <= y <= 'Z' && x as int == y as int + 32)
  }

  predicate SameLetters(s: string, t: string) {
    |s| == |t| && forall i | 0 <= i < |s| :: SameLetter(s[i], t[i])
  }

  lemma LowerExactly(s: string, t: string)
    ensures Lower(s) == Lower(t) <==> SameLetters(s, t)
  {
    if Lower(s) == Lower(t) {
      assert |s| == |Lower(s)| == |t|;
      forall i | 0 <= i < |s|
        ensures SameLetter(s[i], t[i])
      {
        assert Lower(s)[i] == Lower(t)[i];
      }
    }
  }

  lemma LowerConcat(s: string, t: string)
    ensures Lower(s + t) == Lower(s) + Lower(t)
  {
  }

  /** A library is named by its stem in any case, with or without its suffix, and with any spaces around. */
  lemma StemOf(a: string, s: string, suffix: string, b: string)
    requires Spaces(a) && Spaces(b) && Tight(s + suffix)
    requires SameLetters(suffix, ".dll") || (suffix == "" && (|s| >= 4 ==> !SameLetters(s[|s| - 4..], ".dll")))
    ensures Stem(a + s + suffix + b) == Lower(s)
  {
    hide TrimStart, TrimEnd, Lower, IsSpace;
    assert a + s + suffix + b == a + (s + suffix) + b;
    TrimOf(a, s + suffix, b);
    LowerConcat(s, suffix);
    LowerLength(s);
    LowerLength(suffix);
    LowerSuffix();
    if SameLetters(suffix, ".dll") {
      LowerExactly(suffix, ".dll");
      assert (Lower(s) + Lower(suffix))[|s|..] == Lower(suffix) && (Lower(s) + Lower(suffix))[..|s|] == Lower(s);
    } else {
      assert s + suffix == s;
      if |s| >= 4 {
        LowerExactly(s[|s| - 4..], ".dll");
        LowerConcat(s[..|s| - 4], s[|s| - 4..]);
        LowerLength(s[..|s| - 4]);
        assert s == s[..|s| - 4] + s[|s| - 4..];
        assert Lower(s)[|s| - 4..] == Lower(s[|s| - 4..]);
      }
    }
  }

  lemma LowerLength(s: string)
    ensures |Lower(s)| == |s|
  {
  }

  lemma LowerSuffix()
    ensures Lower(".dll") == ".dll"
  {
  }

  // ----- Orders -----

  /** From best to worst, and for coverage from nothing to the strongest proof. */
  lemma Orders()
    ensures Severity(Implemented) < Severity(Partial) < Severity(Stub) < Severity(Unsupported)
    ensures FidelityRank(Exact) < FidelityRank(Restricted) < FidelityRank(Approximate) <
            FidelityRank(SyntheticEnvironment) < FidelityRank(CannedFailure)
    ensures CapabilityRank(Full) < CapabilityRank(PartlyAvailable) < CapabilityRank(Absent)
    ensures CoverageRank(NoCoverage) < CoverageRank(Unit) < CoverageRank(SubsystemScenario) <
            CoverageRank(Differential) < CoverageRank(Conformance)
  {
  }

  // ----- Rows of an interface -----

  lemma {:induction false} RowsExactly(rows: seq<MethodRow>, key: Key, r: MethodRow)
    ensures r in RowsOf(rows, key) <==> r in rows && KeyOf(r.dll, r.iface) == key
    decreases |rows|
  {
    hide KeyOf;
    if rows != [] {
      RowsExactly(rows[..|rows| - 1], key, r);
      LastOrBefore(rows);
    }
  }

  /** The rows that decide for an interface: its required ones, or all of its rows when none is required. */
  predicate Decides(rows: seq<MethodRow>, key: Key, r: MethodRow) {
    && r in rows && KeyOf(r.dll, r.iface) == key
    && (r.required || forall x | x in rows && KeyOf(x.dll, x.iface) == key :: !x.required)
  }

  lemma DecidesExactly(rows: seq<MethodRow>, key: Key, r: MethodRow)
    ensures r in Considered(RowsOf(rows, key)) <==> Decides(rows, key, r)
  {
    hide Considered, RowsOf, KeyOf;
    ConsideredExactly(RowsOf(rows, key), r);
    forall x
      ensures x in RowsOf(rows, key) <==> x in rows && KeyOf(x.dll, x.iface) == key
    {
      RowsExactly(rows, key, x);
    }
  }

  // ----- The interface gate -----

  /** The first entry of a key: position `at`. */
  predicate FirstEntry(entries: seq<Entry>, key: Key, at: nat) {
    at < |entries| && EntryKey(entries[at]) == key && forall j | 0 <= j < at :: EntryKey(entries[j]) != key
  }

  lemma FirstIsFound(entries: seq<Entry>, key: Key, at: nat)
    ensures FirstEntry(entries, key, at) <==> at < |entries| && Find(entries, key) == at
  {
    hide EntryKey, Find;
    var found := Find(entries, key);
    assert forall j | 0 <= j < found :: EntryKey(entries[j]) != key;
    assert found < |entries| ==> EntryKey(entries[found]) == key;
  }

  ghost predicate HasRows(rows: seq<MethodRow>, key: Key) {
    exists r :: r in rows && KeyOf(r.dll, r.iface) == key
  }

  /** The entry claims a better fidelity or capability than one of the rows that decide. */
  ghost predicate Overstates(rows: seq<MethodRow>, key: Key, e: Entry) {
    exists r :: Decides(rows, key, r) &&
                (FidelityRank(r.fidelity) > FidelityRank(e.fidelity) ||
                 CapabilityRank(r.capability) > CapabilityRank(e.capability))
  }

  /** The entry claims exact or full behaviour while one of the rows that decide is not proven. */
  ghost predicate Unbacked(rows: seq<MethodRow>, key: Key, e: Entry) {
    (e.fidelity == Exact || e.capability == Full) &&
    exists r :: Decides(rows, key, r) && r.coverage != Differential && r.coverage != Conformance
  }

  /** What is wrong with the entry of an interface, by kind. */
  ghost predicate Wrong(s: State, key: Key, e: Entry, kind: ViolationKind) {
    match kind
    case InterfaceMethodRowsMissing => !HasRows(s.rows, key)
    case InterfaceAggregateOverstatesChildren => Overstates(s.rows, key, e)
    case InterfaceClaimsUnprovenMethods => !Overstates(s.rows, key, e) && Unbacked(s.rows, key, e)
    case _ => false
  }

  lemma OverstatesExactly(rows: seq<MethodRow>, key: Key, e: Entry)
    ensures var w := WorstOf(Considered(RowsOf(rows, key)));
            Overstates(rows, key, e) <==>
            FidelityRank(w.fidelity) > FidelityRank(e.fidelity) ||
            CapabilityRank(w.capability) > CapabilityRank(e.capability)
  {
    hide Considered, RowsOf, KeyOf, WorstOf, Decides, FidelityRank, CapabilityRank;
    var deciding := Considered(RowsOf(rows, key));
    WorstExactly(deciding, FidelityRank(e.fidelity));
    WorstExactly(deciding, CapabilityRank(e.capability));
    forall r
      ensures r in deciding <==> Decides(rows, key, r)
    {
      DecidesExactly(rows, key, r);
    }
  }

  lemma UnbackedExactly(rows: seq<MethodRow>, key: Key, e: Entry)
    ensures Unbacked(rows, key, e) <==>
            (e.fidelity == Exact || e.capability == Full) && Unproven(Considered(RowsOf(rows, key))) != []
  {
    hide Considered, RowsOf, KeyOf, Unproven, Decides;
    var deciding := Considered(RowsOf(rows, key));
    ProvenExactly(deciding);
    forall r
      ensures r in deciding <==> Decides(rows, key, r)
    {
      DecidesExactly(rows, key, r);
    }
  }

  lemma RowsPresentExactly(rows: seq<MethodRow>, key: Key)
    ensures RowsOf(rows, key) != [] <==> HasRows(rows, key)
  {
    hide RowsOf, KeyOf;
    var mine := RowsOf(rows, key);
    if mine != [] {
      assert mine[0] in mine;
      RowsExactly(rows, key, mine[0]);
    }
    if r :| r in rows && KeyOf(r.dll, r.iface) == key {
      RowsExactly(rows, key, r);
    }
  }

  /** Of one interface the gate reports exactly what is wrong with its first entry. */
  lemma InterfaceExactly(s: State, i: Interface, v: Violation)
    ensures v in InterfaceFindings(s, i) <==>
            exists at: nat :: FirstEntry(s.entries, KeyOf(i.dll, i.name), at) &&
                              v.dll == s.entries[at].dll && v.name == s.entries[at].name &&
                              Wrong(s, KeyOf(i.dll, i.name), s.entries[at], v.kind)
  {
    hide Find, KeyOf, RowsOf, Considered, WorstOf, Unproven, Overstates, Unbacked, HasRows, FirstEntry;
    hide FidelityRank, CapabilityRank;
    var key := KeyOf(i.dll, i.name);
    var at := Find(s.entries, key);
    FirstIsFound(s.entries, key, at);
    forall other: nat | FirstEntry(s.entries, key, other)
      ensures other == at
    {
      FirstIsFound(s.entries, key, other);
    }
    if at < |s.entries| {
      RowsPresentExactly(s.rows, key);
      OverstatesExactly(s.rows, key, s.entries[at]);
      UnbackedExactly(s.rows, key, s.entries[at]);
      NoRowsNothing(s.rows, key, s.entries[at]);
    }
  }

  lemma NoRowsNothing(rows: seq<MethodRow>, key: Key, e: Entry)
    ensures !HasRows(rows, key) ==> !Overstates(rows, key, e) && !Unbacked(rows, key, e)
  {
    hide KeyOf;
  }

  /** A row of an interface that the surface does not list is reported, once, at its first row. */
  lemma {:induction false} UnknownExactly(rows: seq<MethodRow>, known: set<Key>, v: Violation)
    ensures v in UnknownFindings(rows, known) <==>
            exists i | 0 <= i < |rows| ::
              && v == Violation(rows[i].dll, rows[i].iface, InterfaceUnknown) && RowKey(rows[i]) !in known
              && forall j | 0 <= j < i :: RowKey(rows[j]) != RowKey(rows[i])
    decreases |rows|
  {
    hide RowKey;
    if rows != [] {
      var before, last := rows[..|rows| - 1], rows[|rows| - 1];
      UnknownExactly(before, known, v);
      assert forall i | 0 <= i < |before| :: rows[i] == before[i];
      assert RowKey(last) in RowKeys(before) <==> exists j | 0 <= j < |before| :: RowKey(before[j]) == RowKey(last);
    }
  }

  // ----- The shipping gate -----

  /** What is wrong with the entry at a position, by kind. */
  predicate Unshippable(entries: seq<Entry>, deliberate: set<Key>, i: nat, kind: ViolationKind)
    requires i < |entries|
  {
    var e := entries[i];
    match kind
    case LookupAmbiguity => exists j | 0 <= j < i :: FullKeyOf(entries[j]) == FullKeyOf(e)
    case ImplementedWithoutCoverage => e.implementation.Implemented? && e.coverage.NoCoverage?
    case PartialNotTransitional =>
      e.implementation.Partial? && !(e.transitional && e.detail.Some? && |e.detail.value| > 0)
    case StubNotDeliberatelyUnsupported =>
      e.implementation.Stub? && !e.policy.OutsideUserModeProfile? && KeyOf(e.dll, e.name) !in deliberate
    case UnsupportedNotDeliberatelyUnsupported =>
      e.implementation.Unsupported? && !e.policy.OutsideUserModeProfile? && KeyOf(e.dll, e.name) !in deliberate
    case _ => false
  }

  lemma ShippingAt(entries: seq<Entry>, deliberate: set<Key>, i: nat, v: Violation)
    requires i < |entries|
    ensures v in ShippingFindings(FullKeys(entries[..i]), entries[i], deliberate) <==>
            && v.dll == entries[i].dll && v.name == entries[i].name
            && Unshippable(entries, deliberate, i, v.kind)
  {
    hide KeyOf;
    var e := entries[i];
    assert FullKeyOf(e) in FullKeys(entries[..i]) <==>
           exists j | 0 <= j < i :: FullKeyOf(entries[j]) == FullKeyOf(e) by {
      if FullKeyOf(e) in FullKeys(entries[..i]) {
        var x :| x in entries[..i] && FullKeyOf(x) == FullKeyOf(e);
        var j :| 0 <= j < i && entries[..i][j] == x;
        assert FullKeyOf(entries[j]) == FullKeyOf(e);
      }
      if j :| 0 <= j < i && FullKeyOf(entries[j]) == FullKeyOf(e) {
        assert entries[..i][j] in entries[..i];
      }
    }
  }

  /** The shipping gate reports exactly what is wrong with each entry. */
  lemma ShippingExactly(entries: seq<Entry>, deliberate: set<Key>, v: Violation)
    ensures v in ShippingGate(entries, deliberate) <==>
            exists i | 0 <= i < |entries| ::
              && v.dll == entries[i].dll && v.name == entries[i].name
              && Unshippable(entries, deliberate, i, v.kind)
  {
    hide ShippingGate, ShippingFindings, Unshippable;
    if v in ShippingGate(entries, deliberate) {
      var i := ShippingFrom(entries, deliberate, v);
      ShippingAt(entries, deliberate, i, v);
    }
    if i :| 0 <= i < |entries| && v.dll == entries[i].dll && v.name == entries[i].name &&
            Unshippable(entries, deliberate, i, v.kind) {
      ShippingAt(entries, deliberate, i, v);
      ShippingTo(entries, deliberate, i, v);
    }
  }

  // ----- The completeness gate -----

  /** Whether a tier looks at an entry: kernel entries in the kernel tier, the others elsewhere, exclusions nowhere. */
  predicate InScope(e: Entry, tier: Tier, profile: Profile) {
    && (tier.RestrictedKernel? <==> e.policy.OutsideUserModeProfile?)
    && !(e.policy.OptionalFeature? && profile(e.dll))
  }

  predicate Incomplete(e: Entry, kind: ViolationKind) {
    match kind
    case ImplementedWithoutSemanticCoverage =>
      e.implementation.Implemented? && !e.coverage.Differential? && !e.coverage.Conformance?
    case PartialNotCompletenessReady => e.implementation.Partial?
    case StubNotDeliberatelyUnsupported => e.implementation.Stub?
    case UnsupportedNotDeliberatelyUnsupported => e.implementation.Unsupported?
    case _ => false
  }

  lemma {:induction false} CompletenessExactly(entries: seq<Entry>, tier: Tier, profile: Profile, v: Violation)
    ensures v in AllCompletenessFindings(entries, tier, profile) <==>
            exists e | e in entries ::
              InScope(e, tier, profile) && v.dll == e.dll && v.name == e.name && Incomplete(e, v.kind)
    decreases |entries|
  {
    if entries != [] {
      var before, last := entries[..|entries| - 1], entries[|entries| - 1];
      CompletenessExactly(before, tier, profile, v);
      OneExactly(last, tier, profile, v);
      hide CompletenessFindings, InScope, Incomplete;
      LastOrBefore(entries);
    }
  }

  lemma OneExactly(e: Entry, tier: Tier, profile: Profile, v: Violation)
    ensures v in CompletenessFindings(e, tier, profile) <==>
            InScope(e, tier, profile) && v.dll == e.dll && v.name == e.name && Incomplete(e, v.kind)
  {
  }

  // ----- Seeding -----

  /**
  A seeded row is implemented when there is evidence for it, and exact and full when it
  has no restriction besides.
  */
  lemma SeedExactly(t: Tables, i: Interface, m: SurfaceMethod)
    ensures var row, level := SeedRow(t, i, m), t.evidence(i.dll, i.name, m.name);
            && row.dll == i.dll && row.iface == i.name && row.name == m.name && row.required == m.required
            && (row.implementation == Implemented <==> level.Some?) && (row.implementation == Partial <==> level.None?)
            && (level.Some? ==> row.coverage == level.value) && (level.None? ==> row.coverage == NoCoverage)
            && (row.fidelity == Exact <==> level.Some? && !t.restricted(i.name, m.name))
            && (row.capability == Full <==> level.Some? && !t.restricted(i.name, m.name))
            && (row.fidelity == Exact || row.fidelity == Restricted)
            && (row.capability == Full || row.capability == PartlyAvailable)
  {
  }

  // ----- Evidence -----

  /** Evidence raises an entry of its API when its architecture and version are wildcards or the entry's own. */
  lemma AppliesExactly(row: Evidence, e: Entry)
    ensures Raised(e, row).coverage ==
            (if SameApi(row, e) && CoverageRank(row.level) > CoverageRank(e.coverage) then row.level else e.coverage)
    ensures Raised(e, row).(coverage := e.coverage) == e
  {
    hide Stem, Lower;
    LowerExactly(row.name, e.name);
  }

  predicate SameApi(row: Evidence, e: Entry) {
    && Stem(row.dll) == Stem(e.dll) && SameLetters(row.name, e.name)
    && (row.arch.AnyArch? || row.arch == e.arch) && (row.version.AnyVersion? || row.version == e.version)
  }
}
