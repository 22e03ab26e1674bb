/**
The evidence manifest: how the builder binds declared evidence ids to compiled
tests, and what the verifier holds against a manifest. What the tools extract
from the repository (declarations, compiled targets, meta tests, oracle
categories) is input; the digest is some function of the payload here, and a hash
of its JSON text in `ManifestEncoding`.
*/
module ManifestModel {
  import opened Wrappers
  import opened Ordering

  datatype Target = Target(name: string, kinds: seq<string>, path: string, tests: seq<string>, ignored: seq<string>)

  datatype Declared = Declared(conformance: seq<string>, scenario: seq<string>, differential: seq<string>)

  /** An evidence id is its prefix and the suite or category behind the first colon. */
  datatype Id = Conformance(suite: string) | Scenario(suite: string) | Differential(suite: string)

  datatype Via = ViaTarget | ViaTest | ViaOracle

  datatype Binding = Binding(target: string, test: string, via: Via)

  /** The meta tests and the oracle's categories: all, with a reference executor, required by the capture workflow. */
  datatype Context = Context(
    declared: Declared, meta: set<string>, all: set<string>, reference: set<string>, required: set<string>)

  datatype Payload = Payload(
    schema: int, kind: string, commit: string, tree: string, declared: Declared, targets: seq<Target>,
    bindings: map<Id, seq<Binding>>, deferred: seq<(Id, string)>, unbound: seq<(Id, string)>)

  /** The toolchain and source notes are in the file but outside the digest. */
  datatype Document = Document(payload: Payload, notes: string, digest: string)

  type Digest = Payload -> string

  const SCHEMA_VERSION := 2
  const KIND := "casa1-test-manifest"
  const ORACLE_TARGET := "windows_reference"

  // ----- Tests -----

  /** The part of a test path behind its last `::`. */
  function Short(test: string): string {
    ShortFrom(test, |test|)
  }

  function ShortFrom(test: string, at: nat): string
    requires at <= |test|
  {
    if at < 2 then test
    else if test[at - 2..at] == "::" then test[at..]
    else ShortFrom(test, at - 1)
  }

  predicate Runnable(t: Target, test: string, meta: set<string>) {
    test in t.tests && test !in t.ignored && Short(test) !in meta
  }

  predicate HasRunnable(t: Target, meta: set<string>) {
    exists test | test in t.tests :: Runnable(t, test, meta)
  }

  predicate IsIntegration(t: Target, suite: string) {
    t.name == suite && "test" in t.kinds
  }

  /** The first integration target of a name. */
  function Integration(targets: seq<Target>, suite: string): (r: Option<Target>)
    ensures r.Some? <==> exists t | t in targets :: IsIntegration(t, suite)
    ensures r.Some? ==> r.value in targets && IsIntegration(r.value, suite)
  {
    if targets == [] then None
    else if IsIntegration(targets[0], suite) then Some(targets[0])
    else Integration(targets[1..], suite)
  }

  /** The first target of a name that lists a test. */
  function Holder(targets: seq<Target>, name: string, test: string): (r: Option<Target>)
    ensures r.Some? <==> exists t | t in targets :: t.name == name && test in t.tests
    ensures r.Some? ==> r.value in targets && r.value.name == name && test in r.value.tests
  {
    if targets == [] then None
    else if targets[0].name == name && test in targets[0].tests then Some(targets[0])
    else Holder(targets[1..], name, test)
  }

  // ----- The builder -----

  function TestBindings(t: Target, tests: seq<string>, suite: string, meta: set<string>): (r: seq<Binding>)
    ensures forall b :: b in r <==>
              b.via == ViaTest && b.target == t.name && b.test in tests && Short(b.test) == suite &&
              b.test !in t.ignored && suite !in meta
  {
    if tests == [] then []
    else
      var before, last := TestBindings(t, tests[..|tests| - 1], suite, meta), tests[|tests| - 1];
      assert tests == tests[..|tests| - 1] + [last];
      if Short(last) == suite && last !in t.ignored && suite !in meta then before + [Binding(t.name, last, ViaTest)]
      else before
  }

  function AllTestBindings(targets: seq<Target>, suite: string, meta: set<string>): (r: seq<Binding>)
    ensures forall b :: b in r <==>
              b.via == ViaTest && Short(b.test) == suite &&
              exists t | t in targets :: t.name == b.target && Runnable(t, b.test, meta)
  {
    if targets == [] then []
    else
      var before, last := targets[..|targets| - 1], targets[|targets| - 1];
      assert targets == before + [last];
      AllTestBindings(before, suite, meta) + TestBindings(last, last.tests, suite, meta)
  }

  function TargetBinding(targets: seq<Target>, suite: string, meta: set<string>): seq<Binding> {
    var target := Integration(targets, suite);
    if target.Some? && HasRunnable(target.value, meta) then [Binding(suite, "", ViaTarget)] else []
  }

  function ViaText(v: Via): string {
    match v case ViaTarget => "target" case ViaTest => "test" case ViaOracle => "oracle-category"
  }

  function BindingLeq(a: Binding, b: Binding): bool {
    ListLeq([a.target, a.test, ViaText(a.via)], [b.target, b.test, ViaText(b.via)])
  }

  /** Everything that proves a suite, sorted and without repetitions. */
  function SuiteBindings(targets: seq<Target>, suite: string, meta: set<string>): seq<Binding> {
    Sort(BindingLeq, Unique(TargetBinding(targets, suite, meta) + AllTestBindings(targets, suite, meta)))
  }

  /** The bindings of an id; none when it stays unbound. */
  function Bound(c: Context, targets: seq<Target>, id: Id): seq<Binding> {
    if !id.Differential? then SuiteBindings(targets, id.suite, c.meta)
    else if id.suite in c.reference && id.suite in c.required then [Binding(ORACLE_TARGET, id.suite, ViaOracle)]
    else []
  }

  function Ids(d: Declared): seq<Id> {
    seq(|d.conformance|, i requires 0 <= i < |d.conformance| => Conformance(d.conformance[i])) +
    seq(|d.scenario|, i requires 0 <= i < |d.scenario| => Scenario(d.scenario[i])) +
    seq(|d.differential|, i requires 0 <= i < |d.differential| => Differential(d.differential[i]))
  }

  /** A differential id of no oracle category is deferred; every other id must be bound. */
  predicate Bindable(c: Context, id: Id) {
    id.Differential? ==> id.suite in c.all
  }

  const DEFERRED_REASON :=
    "not a category in src/windows_oracle.rs ALL_CATEGORIES; the compiled test manifest cannot bind it"
  const NO_EXECUTOR := "absent from the windows_reference executor"
  const NOT_REQUIRED := "absent from .github/workflows/windows-oracle.yml --required-categories"

  /** Why an id stays unbound. */
  function Reason(c: Context, id: Id): string {
    if !id.Differential? then "no compiled, runnable test target or test function named '" + id.suite + "'"
    else if id.suite in c.reference then NOT_REQUIRED
    else if id.suite in c.required then NO_EXECUTOR
    else NO_EXECUTOR + "; " + NOT_REQUIRED
  }

  function Bindings(c: Context, targets: seq<Target>, ids: seq<Id>): (r: map<Id, seq<Binding>>)
    ensures forall id :: id in r <==> id in ids && Bindable(c, id) && Bound(c, targets, id) != []
    ensures forall id | id in r :: r[id] == Bound(c, targets, id)
  {
    map id | id in ids && Bindable(c, id) && Bound(c, targets, id) != [] :: Bound(c, targets, id)
  }

  function Unbound(c: Context, targets: seq<Target>, ids: seq<Id>): (r: seq<(Id, string)>)
    ensures forall x :: x in r <==>
              x.0 in ids && Bindable(c, x.0) && Bound(c, targets, x.0) == [] && x.1 == Reason(c, x.0)
  {
    if ids == [] then []
    else
      var before, last := ids[..|ids| - 1], ids[|ids| - 1];
      assert ids == before + [last];
      Unbound(c, targets, before) +
      if Bindable(c, last) && Bound(c, targets, last) == [] then [(last, Reason(c, last))] else []
  }

  function Deferred(c: Context, ids: seq<Id>): (r: seq<(Id, string)>)
    ensures forall x :: x in r <==> x.0 in ids && !Bindable(c, x.0) && x.1 == DEFERRED_REASON
  {
    if ids == [] then []
    else
      var before, last := ids[..|ids| - 1], ids[|ids| - 1];
      assert ids == before + [last];
      Deferred(c, before) + if !Bindable(c, last) then [(last, DEFERRED_REASON)] else []
  }

  /** The workflow may only require categories that exist and have an executor. */
  predicate RequiredExist(c: Context) {
    c.required <= c.all && c.required <= c.reference
  }

  function Build(c: Context, digest: Digest, commit: string, tree: string, notes: string, targets: seq<Target>)
    : Option<Document>
  {
    if !RequiredExist(c) then None
    else
      var ids := Ids(c.declared);
      var payload := Payload(SCHEMA_VERSION, KIND, commit, tree, c.declared, targets,
                             Bindings(c, targets, ids), Deferred(c, ids), Unbound(c, targets, ids));
      Some(Document(payload, notes, digest(payload)))
  }

  // ----- The verifier -----

  datatype Error =
    | BadSchema | BadKind | StaleDeclarations | DigestMismatch | WrongCommit | WrongTree
    | NoTargets | TargetsUnsorted
    | DuplicateTarget(target: Target) | TestsUnsorted(target: Target) | IgnoredUnsorted(target: Target)
    | IgnoredNotListed(target: Target)
    | MissingBinding(id: Id) | ExtraBinding(id: Id) | UnboundEvidence(id: Id)
    | NoReason(id: Id) | DeferredKnown(id: Id) | MissingDeferred(id: Id) | ExtraDeferred(id: Id)
    | RequiredUnknown(category: string) | RequiredWithoutExecutor(category: string)
    | NoBindings(id: Id) | BindingsUnsorted(id: Id) | DuplicateBindings(id: Id)
    | WrongOracleBinding(id: Id) | UnknownCategory(id: Id) | NoExecutor(id: Id) | NotRequired(id: Id)
    | WrongSuite(id: Id) | NoIntegrationTarget(id: Id) | NothingRunnable(id: Id)
    | WrongTest(id: Id) | TestNotCompiled(id: Id) | TestIgnored(id: Id) | TestIsMeta(id: Id)
    | UnknownMechanism(id: Id)

  function Flag(when: bool, e: Error): set<Error> {
    if when then {e} else {}
  }

  function TargetLeq(a: Target, b: Target): bool {
    if a.name != b.name then StringLeq(a.name, b.name)
    else if a.kinds != b.kinds then ListLeq(a.kinds, b.kinds)
    else StringLeq(a.path, b.path)
  }

  predicate SameKey(a: Target, b: Target) {
    a.name == b.name && a.kinds == b.kinds && a.path == b.path
  }

  function OneTargetErrors(before: seq<Target>, t: Target): set<Error> {
    Flag(exists x | x in before :: SameKey(x, t), DuplicateTarget(t)) +
    Flag(t.tests != Sort(StringLeq, Unique(t.tests)), TestsUnsorted(t)) +
    Flag(t.ignored != Sort(StringLeq, Unique(t.ignored)), IgnoredUnsorted(t)) +
    Flag(exists test | test in t.ignored :: test !in t.tests, IgnoredNotListed(t))
  }

  function TargetErrors(targets: seq<Target>): set<Error> {
    if targets == [] then {NoTargets}
    else
      Flag(targets != Sort(TargetLeq, targets), TargetsUnsorted) +
      set i, e | 0 <= i < |targets| && e in OneTargetErrors(targets[..i], targets[i]) :: e
  }

  function OracleErrors(c: Context, id: Id, b: Binding): set<Error> {
    Flag(b.target != ORACLE_TARGET || b.test != id.suite, WrongOracleBinding(id)) +
    Flag(id.suite !in c.all, UnknownCategory(id)) +
    Flag(id.suite !in c.reference, NoExecutor(id)) +
    Flag(id.suite !in c.required, NotRequired(id))
  }

  function TargetBindingErrors(c: Context, targets: seq<Target>, id: Id, b: Binding): set<Error> {
    Flag(b.target != id.suite, WrongSuite(id)) +
    match Integration(targets, b.target)
    case None => {NoIntegrationTarget(id)}
    case Some(t) => Flag(!HasRunnable(t, c.meta), NothingRunnable(id))
  }

  function TestBindingErrors(c: Context, targets: seq<Target>, id: Id, b: Binding): set<Error> {
    Flag(Short(b.test) != id.suite, WrongTest(id)) +
    match Holder(targets, b.target, b.test)
    case None => {TestNotCompiled(id)}
    case Some(t) => Flag(b.test in t.ignored, TestIgnored(id)) + Flag(Short(b.test) in c.meta, TestIsMeta(id))
  }

  function BindingErrors(c: Context, targets: seq<Target>, id: Id, b: Binding): set<Error> {
    if id.Differential? then OracleErrors(c, id, b)
    else
      match b.via
      case ViaTarget => TargetBindingErrors(c, targets, id, b)
      case ViaTest => TestBindingErrors(c, targets, id, b)
      case ViaOracle => {UnknownMechanism(id)}
  }

  function ListErrors(c: Context, targets: seq<Target>, id: Id, list: seq<Binding>): set<Error> {
    if list == [] then {NoBindings(id)}
    else
      Flag(list != Sort(BindingLeq, list), BindingsUnsorted(id)) +
      Flag(!Distinct(list), DuplicateBindings(id)) +
      set b, e | b in list && e in BindingErrors(c, targets, id, b) :: e
  }

  function CoverageErrors(c: Context, p: Payload): set<Error> {
    var ids := Ids(c.declared);
    (set id | id in ids && Bindable(c, id) && id !in p.bindings :: MissingBinding(id)) +
    (set id | id in p.bindings && !(id in ids && Bindable(c, id)) :: ExtraBinding(id)) +
    set x | x in p.unbound :: UnboundEvidence(x.0)
  }

  function DeferredErrors(c: Context, p: Payload): set<Error> {
    var ids := Ids(c.declared);
    (set x | x in p.deferred && x.1 == [] :: NoReason(x.0)) +
    (set x | x in p.deferred && x.0.Differential? && x.0.suite in c.all :: DeferredKnown(x.0)) +
    (set id | id in ids && !Bindable(c, id) && !(exists x | x in p.deferred :: x.0 == id) :: MissingDeferred(id)) +
    set x | x in p.deferred && !(x.0 in ids && !Bindable(c, x.0)) :: ExtraDeferred(x.0)
  }

  function RequiredErrors(c: Context): set<Error> {
    (set r | r in c.required && r !in c.all :: RequiredUnknown(r)) +
    set r | r in c.required && r !in c.reference :: RequiredWithoutExecutor(r)
  }

  function BindingsErrors(c: Context, p: Payload): set<Error> {
    set id, e | id in p.bindings && e in ListErrors(c, p.targets, id, p.bindings[id]) :: e
  }

  /** The commit and tree of the checkout, when they are to be compared. */
  function HeadErrors(head: Option<(string, string)>, p: Payload): set<Error> {
    if head.None? then {} else Flag(p.commit != head.value.0, WrongCommit) + Flag(p.tree != head.value.1, WrongTree)
  }

  function HeaderErrors(c: Context, digest: Digest, d: Document): set<Error> {
    Flag(d.payload.schema != SCHEMA_VERSION, BadSchema) +
    Flag(d.payload.kind != KIND, BadKind) +
    Flag(d.payload.declared != c.declared, StaleDeclarations) +
    Flag(d.digest != digest(d.payload), DigestMismatch)
  }

  function Verify(c: Context, digest: Digest, head: Option<(string, string)>, d: Document): set<Error> {
    HeaderErrors(c, digest, d) + TargetErrors(d.payload.targets) +
    CoverageErrors(c, d.payload) + DeferredErrors(c, d.payload) + RequiredErrors(c) +
    BindingsErrors(c, d.payload) + HeadErrors(head, d.payload)
  }
}
