/**
The API completeness database as values: rows, keys, aggregation by worst
child, seeding of the interface rows, and the three gates. The seed tables and
the evidence tables are parameters.
*/
module ApiModel {
  import opened Wrappers

  // ----- Rows -----

  datatype Arch = X86 | X64 | AnyArch
  datatype Version = Win10 | Win11 | AnyVersion
  datatype Implementation = Implemented | Partial | Stub | Unsupported
  datatype Policy = Required | OptionalFeature | OutsideUserModeProfile
  datatype Coverage = NoCoverage | Unit | SubsystemScenario | Differential | Conformance
  datatype Fidelity = Exact | Restricted | Approximate | SyntheticEnvironment | CannedFailure
  datatype Capability = Full | PartlyAvailable | Absent
  datatype Tier = NativeUserMode | Managed | RestrictedKernel

  datatype Entry = Entry(
    dll: string, name: string, arch: Arch, version: Version,
    implementation: Implementation, coverage: Coverage,
    transitional: bool, detail: Option<string>, policy: Policy,
    fidelity: Fidelity, capability: Capability)
  {
    predicate HasSpecificReason() {
      transitional && detail.Some? && detail.value != []
    }
  }

  datatype MethodRow = MethodRow(
    dll: string, iface: string, name: string, required: bool,
    implementation: Implementation, fidelity: Fidelity, capability: Capability, coverage: Coverage)

  /** How bad an implementation, a fidelity or a capability is; how much a coverage proves. */
  function Severity(x: Implementation): nat {
    match x case Implemented => 0 case Partial => 1 case Stub => 2 case Unsupported => 3
  }

  function FidelityRank(x: Fidelity): nat {
    match x
    case Exact => 0
    case Restricted => 1
    case Approximate => 2
    case SyntheticEnvironment => 3
    case CannedFailure => 4
  }

  function CapabilityRank(x: Capability): nat {
    match x case Full => 0 case PartlyAvailable => 1 case Absent => 2
  }

  function CoverageRank(x: Coverage): nat {
    match x case NoCoverage => 0 case Unit => 1 case SubsystemScenario => 2 case Differential => 3 case Conformance => 4
  }

  predicate Proven(x: Coverage) {
    x == Differential || x == Conformance
  }

  // ----- Keys -----

  predicate IsSpace(c: char) {
    var n := c as int;
    || 0x9 <= n <= 0xD || n == 0x20 || n == 0x85 || n == 0xA0 || n == 0x1680 || 0x2000 <= n <= 0x200A
    || n == 0x2028 || n == 0x2029 || n == 0x202F || n == 0x205F || n == 0x3000
  }

  function TrimStart(s: string): string {
    if s != [] && IsSpace(s[0]) then TrimStart(s[1..]) else s
  }

  function TrimEnd(s: string): string {
    if s != [] && IsSpace(s[|s| - 1]) then TrimEnd(s[..|s| - 1]) else s
  }

  function Lower(s: string): string {
    seq(|s|, i requires 0 <= i < |s| => if 'A' <= s[i] <= 'Z' then (s[i] as int + 32) as char else s[i])
  }

  /** Lower case, trimmed, without one `.dll` suffix. */
  function Stem(dll: string): string {
    var s := Lower(TrimEnd(TrimStart(dll)));
    if |s| >= 4 && s[|s| - 4..] == ".dll" then s[..|s| - 4] else s
  }

  /** Names compare without case; a library also without its suffix. */
  datatype Key = Key(dll: string, name: string)

  function KeyOf(dll: string, name: string): Key {
    Key(Stem(dll), Lower(name))
  }

  function EntryKey(e: Entry): Key {
    KeyOf(e.dll, e.name)
  }

  function RowKey(r: MethodRow): Key {
    KeyOf(r.dll, r.iface)
  }

  datatype FullKey = FullKey(key: Key, arch: Arch, version: Version)

  function FullKeyOf(e: Entry): FullKey {
    FullKey(EntryKey(e), e.arch, e.version)
  }

  /** The first entry with a key, or the number of entries. */
  function Find(entries: seq<Entry>, key: Key): (r: nat)
    ensures r <= |entries| && (r < |entries| ==> EntryKey(entries[r]) == key)
    ensures forall i | 0 <= i < r :: EntryKey(entries[i]) != key
  {
    if entries == [] || EntryKey(entries[0]) == key then 0 else 1 + Find(entries[1..], key)
  }

  /** The method rows of one interface, in order. */
  function RowsOf(rows: seq<MethodRow>, key: Key): seq<MethodRow> {
    if rows == [] then []
    else RowsOf(rows[..|rows| - 1], key) + if RowKey(rows[|rows| - 1]) == key then [rows[|rows| - 1]] else []
  }

  lemma {:induction false} RowsOfConcat(a: seq<MethodRow>, b: seq<MethodRow>, key: Key)
    ensures RowsOf(a + b, key) == RowsOf(a, key) + RowsOf(b, key)
    decreases |b|
  {
    hide RowKey;
    if b == [] {
      assert a + b == a;
    } else {
      assert (a + b)[..|a + b| - 1] == a + b[..|b| - 1];
      RowsOfConcat(a, b[..|b| - 1], key);
    }
  }

  lemma {:induction false} RowsOfAll(rows: seq<MethodRow>, key: Key, other: Key)
    requires forall r | r in rows :: RowKey(r) == other
    ensures RowsOf(rows, key) == if key == other then rows else []
    decreases |rows|
  {
    hide RowKey;
    if rows != [] {
      RowsOfAll(rows[..|rows| - 1], key, other);
    }
  }

  // ----- Aggregation -----

  function RequiredRows(rows: seq<MethodRow>): seq<MethodRow> {
    if rows == [] then []
    else RequiredRows(rows[..|rows| - 1]) + if rows[|rows| - 1].required then [rows[|rows| - 1]] else []
  }

  /** The rows an aggregate is computed from: the required ones, or all when none is required. */
  function Considered(rows: seq<MethodRow>): seq<MethodRow> {
    if RequiredRows(rows) == [] then rows else RequiredRows(rows)
  }

  datatype Worst = Worst(implementation: Implementation, fidelity: Fidelity, capability: Capability, coverage: Coverage)

  function Worsened(w: Worst, r: MethodRow): Worst {
    Worst(if Severity(r.implementation) > Severity(w.implementation) then r.implementation else w.implementation,
          if FidelityRank(r.fidelity) > FidelityRank(w.fidelity) then r.fidelity else w.fidelity,
          if CapabilityRank(r.capability) > CapabilityRank(w.capability) then r.capability else w.capability,
          if CoverageRank(r.coverage) < CoverageRank(w.coverage) then r.coverage else w.coverage)
  }

  const BEST := Worst(Implemented, Exact, Full, Conformance)

  function WorstOf(rows: seq<MethodRow>): Worst {
    if rows == [] then BEST else Worsened(WorstOf(rows[..|rows| - 1]), rows[|rows| - 1])
  }

  function Unproven(rows: seq<MethodRow>): seq<string> {
    if rows == [] then []
    else Unproven(rows[..|rows| - 1]) + if Proven(rows[|rows| - 1].coverage) then [] else [rows[|rows| - 1].name]
  }

  datatype Aggregate = Aggregate(
    methodCount: nat, requiredCount: nat, worst: Worst, proven: bool, unproven: seq<string>)

  function AggregateOf(rows: seq<MethodRow>): Option<Aggregate> {
    if rows == [] then None
    else
      var considered := Considered(rows);
      Some(Aggregate(
        |rows|, |RequiredRows(rows)|, WorstOf(considered), Unproven(considered) == [], Unproven(considered)))
  }

  // ----- Seeding -----

  datatype SurfaceMethod = SurfaceMethod(name: string, required: bool)
  datatype Interface = Interface(dll: string, name: string, methods: seq<SurfaceMethod>)

  /** The strongest evidence level for a method, and whether it has a documented restriction. */
  datatype Tables = Tables(evidence: (string, string, string) -> Option<Coverage>, restricted: (string, string) -> bool)

  predicate Claimed(t: Tables, i: Interface, m: SurfaceMethod) {
    t.evidence(i.dll, i.name, m.name).Some? && !t.restricted(i.name, m.name)
  }

  function SeedRow(t: Tables, i: Interface, m: SurfaceMethod): MethodRow {
    var evidence := t.evidence(i.dll, i.name, m.name);
    MethodRow(i.dll, i.name, m.name, m.required,
              if evidence.Some? then Implemented else Partial,
              if Claimed(t, i, m) then Exact else Restricted,
              if Claimed(t, i, m) then Full else PartlyAvailable,
              if evidence.Some? then evidence.value else NoCoverage)
  }

  function SeedRows(t: Tables, i: Interface): (r: seq<MethodRow>)
    ensures |r| == |i.methods|
    ensures forall k | 0 <= k < |r| :: r[k] == SeedRow(t, i, i.methods[k])
  {
    seq(|i.methods|, k requires 0 <= k < |i.methods| => SeedRow(t, i, i.methods[k]))
  }

  function InterfaceKey(i: Interface): Key {
    KeyOf(i.dll, i.name)
  }

  datatype State = State(entries: seq<Entry>, rows: seq<MethodRow>)

  /** Entries with the fidelity and capability of the first one of a key replaced. */
  function Derived(entries: seq<Entry>, key: Key, w: Worst): (r: seq<Entry>)
    ensures |r| == |entries|
  {
    var i := Find(entries, key);
    if i == |entries| then entries
    else entries[i := entries[i].(fidelity := w.fidelity, capability := w.capability)]
  }

  /** Seeding panics on an interface that has no row, so surfaces list no empty interface. */
  predicate Seedable(surface: seq<Interface>) {
    forall i | i in surface :: i.methods != []
  }

  function SeedOne(t: Tables, s: State, i: Interface): State
    requires i.methods != []
  {
    var rows := s.rows + SeedRows(t, i);
    RowsPresent(t, s.rows, i);
    var aggregate := AggregateOf(RowsOf(rows, InterfaceKey(i))).value;
    State(Derived(s.entries, InterfaceKey(i), aggregate.worst), rows)
  }

  lemma RowsPresent(t: Tables, rows: seq<MethodRow>, i: Interface)
    requires i.methods != []
    ensures RowsOf(rows + SeedRows(t, i), InterfaceKey(i)) == RowsOf(rows, InterfaceKey(i)) + SeedRows(t, i)
    ensures RowsOf(rows + SeedRows(t, i), InterfaceKey(i)) != []
  {
    hide RowsOf, KeyOf;
    RowsOfConcat(rows, SeedRows(t, i), InterfaceKey(i));
    RowsOfAll(SeedRows(t, i), InterfaceKey(i), InterfaceKey(i));
  }

  function SeedAll(t: Tables, s: State, surface: seq<Interface>): State
    requires Seedable(surface)
    decreases |surface|
  {
    if surface == [] then s
    else SeedOne(t, SeedAll(t, s, surface[..|surface| - 1]), surface[|surface| - 1])
  }

  // ----- Gates -----

  datatype ViolationKind =
    | PartialNotTransitional | PartialNotCompletenessReady
    | StubNotDeliberatelyUnsupported | UnsupportedNotDeliberatelyUnsupported
    | ImplementedWithoutCoverage | ImplementedWithoutSemanticCoverage
    | LookupAmbiguity
    | InterfaceUnknown | InterfaceMethodRowsMissing
    | InterfaceAggregateOverstatesChildren | InterfaceClaimsUnprovenMethods

  datatype Violation = Violation(dll: string, name: string, kind: ViolationKind)

  function Flag(when: bool, e: Entry, kind: ViolationKind): seq<Violation> {
    if when then [Violation(e.dll, e.name, kind)] else []
  }

  /** What the interface gate says of one interface. */
  function InterfaceFindings(s: State, i: Interface): seq<Violation> {
    var at := Find(s.entries, InterfaceKey(i));
    if at == |s.entries| then []
    else
      var e := s.entries[at];
      match AggregateOf(RowsOf(s.rows, InterfaceKey(i)))
      case None => [Violation(e.dll, e.name, InterfaceMethodRowsMissing)]
      case Some(a) =>
        var fidelity := FidelityRank(e.fidelity) < FidelityRank(a.worst.fidelity);
        var capability := CapabilityRank(e.capability) < CapabilityRank(a.worst.capability);
        Flag(fidelity, e, InterfaceAggregateOverstatesChildren) +
        Flag(capability, e, InterfaceAggregateOverstatesChildren) +
        Flag(!fidelity && !capability && (e.fidelity == Exact || e.capability == Full) && !a.proven,
             e, InterfaceClaimsUnprovenMethods)
  }

  function AllInterfaceFindings(s: State, surface: seq<Interface>): seq<Violation> {
    if surface == [] then []
    else AllInterfaceFindings(s, surface[..|surface| - 1]) + InterfaceFindings(s, surface[|surface| - 1])
  }

  function Known(surface: seq<Interface>): set<Key> {
    set i | i in surface :: InterfaceKey(i)
  }

  function RowKeys(rows: seq<MethodRow>): set<Key> {
    set r | r in rows :: RowKey(r)
  }

  /** One finding for each unknown interface, at its first row. */
  function UnknownFindings(rows: seq<MethodRow>, known: set<Key>): seq<Violation> {
    if rows == [] then []
    else
      var before, last := rows[..|rows| - 1], rows[|rows| - 1];
      UnknownFindings(before, known) +
      if RowKey(last) in known || RowKey(last) in RowKeys(before) then []
      else [Violation(last.dll, last.iface, InterfaceUnknown)]
  }

  function InterfaceGate(s: State, surface: seq<Interface>): seq<Violation> {
    UnknownFindings(s.rows, Known(surface)) + AllInterfaceFindings(s, surface)
  }

  function FullKeys(entries: seq<Entry>): set<FullKey> {
    set e | e in entries :: FullKeyOf(e)
  }

  /** What the shipping gate says of one entry, after it has seen some full keys. */
  function ShippingFindings(seen: set<FullKey>, e: Entry, deliberate: set<Key>): seq<Violation> {
    var excused := e.policy == OutsideUserModeProfile || EntryKey(e) in deliberate;
    Flag(FullKeyOf(e) in seen, e, LookupAmbiguity) +
    match e.implementation
    case Implemented => Flag(e.coverage == NoCoverage, e, ImplementedWithoutCoverage)
    case Partial => Flag(!e.HasSpecificReason(), e, PartialNotTransitional)
    case Stub => Flag(!excused, e, StubNotDeliberatelyUnsupported)
    case Unsupported => Flag(!excused, e, UnsupportedNotDeliberatelyUnsupported)
  }

  function ShippingGate(entries: seq<Entry>, deliberate: set<Key>): seq<Violation> {
    if entries == [] then []
    else
      ShippingGate(entries[..|entries| - 1], deliberate) +
      ShippingFindings(FullKeys(entries[..|entries| - 1]), entries[|entries| - 1], deliberate)
  }

  /** Whether an optional feature is left out, by library name. */
  type Profile = string -> bool

  predicate Excluded(e: Entry, profile: Profile) {
    e.policy == OptionalFeature && profile(e.dll)
  }

  function CompletenessFindings(e: Entry, tier: Tier, profile: Profile): seq<Violation> {
    if (tier == RestrictedKernel) != (e.policy == OutsideUserModeProfile) || Excluded(e, profile) then []
    else
      match e.implementation
      case Implemented => Flag(!Proven(e.coverage), e, ImplementedWithoutSemanticCoverage)
      case Partial => Flag(true, e, PartialNotCompletenessReady)
      case Stub => Flag(true, e, StubNotDeliberatelyUnsupported)
      case Unsupported => Flag(true, e, UnsupportedNotDeliberatelyUnsupported)
  }

  function AllCompletenessFindings(entries: seq<Entry>, tier: Tier, profile: Profile): seq<Violation> {
    if entries == [] then []
    else
      AllCompletenessFindings(entries[..|entries| - 1], tier, profile) +
      CompletenessFindings(entries[|entries| - 1], tier, profile)
  }

  function CompletenessGate(s: State, surface: seq<Interface>, tier: Tier, profile: Profile): seq<Violation> {
    AllCompletenessFindings(s.entries, tier, profile) + InterfaceGate(s, surface)
  }

  // ----- Lookup -----

  function LookUp(entries: seq<Entry>, key: FullKey): Option<Entry> {
    if entries == [] then None
    else if FullKeyOf(entries[0]) == key then Some(entries[0])
    else LookUp(entries[1..], key)
  }

  predicate DistinctKeys(entries: seq<Entry>) {
    forall i, j | 0 <= i < j < |entries| :: FullKeyOf(entries[i]) != FullKeyOf(entries[j])
  }

  // ----- Coverage evidence -----

  datatype Evidence = Evidence(dll: string, name: string, arch: Arch, version: Version, level: Coverage)

  predicate Applies(row: Evidence, e: Entry) {
    && KeyOf(row.dll, row.name) == EntryKey(e)
    && (row.arch == AnyArch || row.arch == e.arch)
    && (row.version == AnyVersion || row.version == e.version)
  }

  function Raised(e: Entry, row: Evidence): Entry {
    if Applies(row, e) && CoverageRank(row.level) > CoverageRank(e.coverage) then e.(coverage := row.level) else e
  }

  function RaisedByAll(e: Entry, table: seq<Evidence>): Entry {
    if table == [] then e else Raised(RaisedByAll(e, table[..|table| - 1]), table[|table| - 1])
  }
}
