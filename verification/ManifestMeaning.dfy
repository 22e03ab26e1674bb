/**
What a manifest says, in terms of test paths and target lists alone: which
tests prove a declared id, what the builder therefore lists, and exactly which
manifests the verifier accepts.
*/
module ManifestMeaning {
  import opened Wrappers
  import opened Ordering
  import opened ManifestModel
  import opened ManifestPaths
  import opened ManifestTheorems

  // ----- What proves a suite -----

  /** The first integration target of a name: position `i`. */
  predicate FirstIntegration(targets: seq<Target>, suite: string, i: nat) {
    && i < |targets| && targets[i].name == suite && "test" in targets[i].kinds
    && forall j | 0 <= j < i :: targets[j].name == suite ==> "test" !in targets[j].kinds
  }

  /** The first target of a name that lists a test: position `i`. */
  predicate FirstHolder(targets: seq<Target>, name: string, test: string, i: nat) {
    && i < |targets| && targets[i].name == name && test in targets[i].tests
    && forall j | 0 <= j < i :: targets[j].name == name ==> test !in targets[j].tests
  }

  lemma {:induction false} IntegrationExactly(targets: seq<Target>, suite: string, i: nat)
    requires FirstIntegration(targets, suite, i)
    ensures Integration(targets, suite) == Some(targets[i])
    decreases i
  {
    if i > 0 {
      assert targets[1..][i - 1] == targets[i];
      assert forall j | 0 <= j < i - 1 :: targets[1..][j] == targets[j + 1];
      IntegrationExactly(targets[1..], suite, i - 1);
    }
  }

  lemma {:induction false} IntegrationFound(targets: seq<Target>, suite: string) returns (i: nat)
    requires Integration(targets, suite).Some?
    ensures FirstIntegration(targets, suite, i)
  {
    if IsIntegration(targets[0], suite) {
      i := 0;
    } else {
      i := IntegrationFound(targets[1..], suite);
      i := i + 1;
      assert forall j | 0 < j < i :: targets[j] == targets[1..][j - 1];
    }
  }

  lemma {:induction false} HolderExactly(targets: seq<Target>, name: string, test: string, i: nat)
    requires FirstHolder(targets, name, test, i)
    ensures Holder(targets, name, test) == Some(targets[i])
    decreases i
  {
    if i > 0 {
      assert targets[1..][i - 1] == targets[i];
      assert forall j | 0 <= j < i - 1 :: targets[1..][j] == targets[j + 1];
      HolderExactly(targets[1..], name, test, i - 1);
    }
  }

  lemma {:induction false} HolderFound(targets: seq<Target>, name: string, test: string) returns (i: nat)
    requires Holder(targets, name, test).Some?
    ensures FirstHolder(targets, name, test, i)
  {
    if targets[0].name == name && test in targets[0].tests {
      i := 0;
    } else {
      i := HolderFound(targets[1..], name, test);
      i := i + 1;
      assert forall j | 0 < j < i :: targets[j] == targets[1..][j - 1];
    }
  }

  ghost predicate SomethingRuns(t: Target, meta: set<string>) {
    exists test :: CanRun(t, test, meta)
  }

  /** The suite's own integration target, the first of its name, has something to run. */
  ghost predicate ByTarget(targets: seq<Target>, suite: string, meta: set<string>) {
    exists i: nat :: FirstIntegration(targets, suite, i) && SomethingRuns(targets[i], meta)
  }

  /** Some target of this name has a test that can run and whose path names the suite. */
  ghost predicate ByTest(targets: seq<Target>, suite: string, meta: set<string>, name: string, test: string) {
    Names(test, suite) && exists t :: t in targets && t.name == name && CanRun(t, test, meta)
  }

  lemma RunsExactly(t: Target, meta: set<string>)
    ensures HasRunnable(t, meta) <==> SomethingRuns(t, meta)
  {
    hide Runnable, Names;
    forall test
      ensures Runnable(t, test, meta) <==> CanRun(t, test, meta)
    {
      RunnableExactly(t, test, meta);
    }
    if test :| CanRun(t, test, meta) {
      assert test in t.tests && Runnable(t, test, meta);
    }
  }

  lemma TargetBindingExactly(targets: seq<Target>, suite: string, meta: set<string>, b: Binding)
    ensures b in TargetBinding(targets, suite, meta) <==>
            b == Binding(suite, "", ViaTarget) && ByTarget(targets, suite, meta)
  {
    hide HasRunnable, SomethingRuns, Integration;
    if Integration(targets, suite).Some? {
      var i := IntegrationFound(targets, suite);
      IntegrationExactly(targets, suite, i);
      RunsExactly(targets[i], meta);
    }
    if ByTarget(targets, suite, meta) {
      var i: nat :| FirstIntegration(targets, suite, i) && SomethingRuns(targets[i], meta);
      IntegrationExactly(targets, suite, i);
      RunsExactly(targets[i], meta);
    }
  }

  lemma TestBindingExactly(targets: seq<Target>, suite: string, meta: set<string>, b: Binding)
    ensures b in AllTestBindings(targets, suite, meta) <==>
            b.via.ViaTest? && ByTest(targets, suite, meta, b.target, b.test)
  {
    hide AllTestBindings, Runnable, CanRun, Short, Names;
    ShortExactly(b.test, suite);
    forall t
      ensures Runnable(t, b.test, meta) <==> CanRun(t, b.test, meta)
    {
      RunnableExactly(t, b.test, meta);
    }
  }

  /** A suite's list is sorted, has no repetition, and holds exactly what proves the suite. */
  lemma SuiteExactly(targets: seq<Target>, suite: string, meta: set<string>)
    ensures var list := SuiteBindings(targets, suite, meta);
            && Ordered(BindingLeq, list) && Distinct(list)
            && forall b :: b in list <==>
                 || (b == Binding(suite, "", ViaTarget) && ByTarget(targets, suite, meta))
                 || (b.via.ViaTest? && ByTest(targets, suite, meta, b.target, b.test))
  {
    hide TargetBinding, AllTestBindings, SuiteBindings, BindingLeq, ByTarget, ByTest, Sort;
    SuiteList(targets, suite, meta);
    BindingOrder();
    SortedExactly(BindingLeq, SuiteBindings(targets, suite, meta));
    forall b
      ensures b in TargetBinding(targets, suite, meta) <==>
              b == Binding(suite, "", ViaTarget) && ByTarget(targets, suite, meta)
      ensures b in AllTestBindings(targets, suite, meta) <==>
              b.via.ViaTest? && ByTest(targets, suite, meta, b.target, b.test)
    {
      TargetBindingExactly(targets, suite, meta, b);
      TestBindingExactly(targets, suite, meta, b);
    }
  }

  // ----- What the builder lists -----

  /** A binding that proves an id. */
  ghost predicate Entails(c: Context, targets: seq<Target>, id: Id, b: Binding) {
    match id
    case Differential(category) =>
      category in c.reference && category in c.required && b == Binding("windows_reference", category, ViaOracle)
    case _ =>
      || (b == Binding(id.suite, "", ViaTarget) && ByTarget(targets, id.suite, c.meta))
      || (b.via.ViaTest? && ByTest(targets, id.suite, c.meta, b.target, b.test))
  }

  lemma BoundExactly(c: Context, targets: seq<Target>, id: Id)
    ensures Distinct(Bound(c, targets, id)) && Ordered(BindingLeq, Bound(c, targets, id))
    ensures forall b :: b in Bound(c, targets, id) <==> Entails(c, targets, id, b)
  {
    hide SuiteBindings, BindingLeq, ByTarget, ByTest;
    if !id.Differential? {
      SuiteExactly(targets, id.suite, c.meta);
    }
  }

  ghost predicate Declares(d: Declared, id: Id) {
    match id
    case Conformance(s) => s in d.conformance
    case Scenario(s) => s in d.scenario
    case Differential(s) => s in d.differential
  }

  /**
  A declared id is bound to everything that proves it, deferred when the oracle has no
  such category, else unbound.
  */
  lemma BuildExactly(c: Context, digest: Digest, commit: string, tree: string, notes: string,
                     targets: seq<Target>, id: Id)
    requires Build(c, digest, commit, tree, notes, targets).Some?
    ensures var p := Build(c, digest, commit, tree, notes, targets).value.payload;
            var known := id.Differential? ==> id.suite in c.all;
            && (id in p.bindings <==> Declares(c.declared, id) && known && exists b :: Entails(c, targets, id, b))
            && (id in p.bindings ==> forall b :: b in p.bindings[id] <==> Entails(c, targets, id, b))
            && ((exists x :: x in p.unbound && x.0 == id) <==>
                Declares(c.declared, id) && known && !exists b :: Entails(c, targets, id, b))
            && ((exists x :: x in p.deferred && x.0 == id) <==> Declares(c.declared, id) && !known)
  {
    hide Ids, Bound, Unbound, Deferred, Bindings, Entails;
    var p, ids := Build(c, digest, commit, tree, notes, targets).value.payload, Ids(c.declared);
    IdsExactly(c.declared, id);
    BoundExactly(c, targets, id);
    var list := Bound(c, targets, id);
    if list != [] {
      assert list[0] in list;
    }
    assert (id, Reason(c, id)) in p.unbound <==> id in ids && Bindable(c, id) && list == [];
    assert (id, DEFERRED_REASON) in p.deferred <==> id in ids && !Bindable(c, id);
  }

  function Joined(parts: seq<string>): string {
    if parts == [] then "" else if |parts| == 1 then parts[0] else parts[0] + "; " + Joined(parts[1..])
  }

  /** Every entry left unbound says why: nothing to run, or what the oracle lacks. */
  lemma ReasonExactly(c: Context, targets: seq<Target>, ids: seq<Id>, x: (Id, string))
    requires x in Unbound(c, targets, ids)
    ensures !x.0.Differential? ==> x.1 == "no compiled, runnable test target or test function named '" + x.0.suite + "'"
    ensures x.0.Differential? ==>
              var missing := if x.0.suite in c.reference then [] else ["absent from the windows_reference executor"];
              var optional := if x.0.suite in c.required then []
                              else ["absent from .github/workflows/windows-oracle.yml --required-categories"];
              x.1 == Joined(missing + optional) && missing + optional != []
  {
    hide Unbound, SuiteBindings;
    var id := x.0;
    if id.Differential? {
      assert Bound(c, targets, id) == [];
      if id.suite !in c.reference && id.suite !in c.required {
        assert ([NO_EXECUTOR] + [NOT_REQUIRED])[1..] == [NOT_REQUIRED];
      }
    }
  }

  // ----- What the verifier accepts -----

  predicate HeaderHolds(c: Context, digest: Digest, head: Option<(string, string)>, d: Document) {
    && d.payload.schema == 2 && d.payload.kind == "casa1-test-manifest" && d.payload.declared == c.declared
    && d.digest == digest(d.payload)
    && (head.Some? ==> d.payload.commit == head.value.0 && d.payload.tree == head.value.1)
  }

  lemma HeaderExactly(c: Context, digest: Digest, head: Option<(string, string)>, d: Document)
    ensures HeaderErrors(c, digest, d) == {} && HeadErrors(head, d.payload) == {} <==> HeaderHolds(c, digest, head, d)
  {
    assert BadSchema in Flag(true, BadSchema) && BadKind in Flag(true, BadKind);
    assert StaleDeclarations in Flag(true, StaleDeclarations) && DigestMismatch in Flag(true, DigestMismatch);
    assert WrongCommit in Flag(true, WrongCommit) && WrongTree in Flag(true, WrongTree);
  }

  predicate Known(c: Context, id: Id) {
    id.Differential? ==> id.suite in c.all
  }

  ghost predicate CoverageHolds(c: Context, p: Payload) {
    p.unbound == [] && forall id :: id in p.bindings <==> Declares(c.declared, id) && Known(c, id)
  }

  lemma CoverageExactly(c: Context, p: Payload)
    ensures CoverageErrors(c, p) == {} <==> CoverageHolds(c, p)
  {
    hide Ids, Declares;
    var ids := Ids(c.declared);
    forall id
      ensures id in ids <==> Declares(c.declared, id)
    {
      DeclaredIds(c.declared, id);
    }
    var errors := CoverageErrors(c, p);
    assert forall id | id in ids && Bindable(c, id) && id !in p.bindings :: MissingBinding(id) in errors;
    assert forall id | id in p.bindings && !(id in ids && Bindable(c, id)) :: ExtraBinding(id) in errors;
    assert forall x | x in p.unbound :: UnboundEvidence(x.0) in errors;
    if p.unbound != [] {
      assert p.unbound[0] in p.unbound;
    }
  }

  lemma DeclaredIds(d: Declared, id: Id)
    ensures id in Ids(d) <==> Declares(d, id)
  {
    hide Ids;
    IdsExactly(d, id);
  }

  ghost predicate DeferredHolds(c: Context, p: Payload) {
    && (forall x | x in p.deferred :: x.1 != "" && Declares(c.declared, x.0) && !Known(c, x.0))
    && forall id | Declares(c.declared, id) && !Known(c, id) :: exists x | x in p.deferred :: x.0 == id
  }

  lemma DeferredExactly(c: Context, p: Payload)
    ensures DeferredErrors(c, p) == {} <==> DeferredHolds(c, p)
  {
    hide Ids, Declares;
    var ids := Ids(c.declared);
    forall id
      ensures id in ids <==> Declares(c.declared, id)
    {
      DeclaredIds(c.declared, id);
    }
    var errors := DeferredErrors(c, p);
    assert forall x | x in p.deferred && x.1 == [] :: NoReason(x.0) in errors;
    assert forall x | x in p.deferred && !(x.0 in ids && !Bindable(c, x.0)) :: ExtraDeferred(x.0) in errors;
    assert forall id | id in ids && !Bindable(c, id) && !(exists x | x in p.deferred :: x.0 == id) ::
        MissingDeferred(id) in errors;
  }

  /** What the verifier demands of one binding. */
  ghost predicate Supports(c: Context, targets: seq<Target>, id: Id, b: Binding) {
    match id
    case Differential(category) =>
      && b.target == "windows_reference" && b.test == category
      && category in c.all && category in c.reference && category in c.required
    case _ =>
      match b.via
      case ViaTarget => b.target == id.suite && ByTarget(targets, id.suite, c.meta)
      case ViaTest =>
        Names(b.test, id.suite) &&
        exists i: nat :: FirstHolder(targets, b.target, b.test, i) && CanRun(targets[i], b.test, c.meta)
      case ViaOracle => false
  }

  lemma EntryExactly(c: Context, targets: seq<Target>, id: Id, b: Binding)
    ensures BindingErrors(c, targets, id, b) == {} <==> Supports(c, targets, id, b)
  {
    hide ByTarget, Names, Short, Holder, Integration, FirstHolder;
    if id.Differential? {
      OracleExactly(c, id, b);
    } else if b.via.ViaTarget? {
      TargetExactly(c, targets, id, b);
    } else if b.via.ViaTest? {
      TestExactly(c, targets, id, b);
    }
  }

  lemma OracleExactly(c: Context, id: Id, b: Binding)
    ensures OracleErrors(c, id, b) == {} <==>
            && b.target == "windows_reference" && b.test == id.suite
            && id.suite in c.all && id.suite in c.reference && id.suite in c.required
  {
    assert WrongOracleBinding(id) in Flag(true, WrongOracleBinding(id)) && NoExecutor(id) in Flag(true, NoExecutor(id));
    assert UnknownCategory(id) in Flag(true, UnknownCategory(id)) && NotRequired(id) in Flag(true, NotRequired(id));
  }

  lemma TargetExactly(c: Context, targets: seq<Target>, id: Id, b: Binding)
    ensures TargetBindingErrors(c, targets, id, b) == {} <==>
            b.target == id.suite && ByTarget(targets, id.suite, c.meta)
  {
    hide Integration, HasRunnable, SomethingRuns;
    assert WrongSuite(id) in Flag(true, WrongSuite(id)) && NothingRunnable(id) in Flag(true, NothingRunnable(id));
    if Integration(targets, b.target).Some? {
      var i := IntegrationFound(targets, b.target);
      IntegrationExactly(targets, b.target, i);
      RunsExactly(targets[i], c.meta);
    }
    if ByTarget(targets, id.suite, c.meta) {
      var i: nat :| FirstIntegration(targets, id.suite, i) && SomethingRuns(targets[i], c.meta);
      IntegrationExactly(targets, id.suite, i);
      RunsExactly(targets[i], c.meta);
    }
  }

  lemma TestExactly(c: Context, targets: seq<Target>, id: Id, b: Binding)
    ensures TestBindingErrors(c, targets, id, b) == {} <==>
            Names(b.test, id.suite) &&
            exists i: nat :: FirstHolder(targets, b.target, b.test, i) && CanRun(targets[i], b.test, c.meta)
  {
    hide Holder, Short, Names, CanRun;
    assert WrongTest(id) in Flag(true, WrongTest(id)) && TestIgnored(id) in Flag(true, TestIgnored(id));
    assert TestIsMeta(id) in Flag(true, TestIsMeta(id));
    ShortExactly(b.test, id.suite);
    if Holder(targets, b.target, b.test).Some? {
      var i := HolderFound(targets, b.target, b.test);
      HolderExactly(targets, b.target, b.test, i);
      RunnableExactly(targets[i], b.test, c.meta);
    }
    forall i: nat | FirstHolder(targets, b.target, b.test, i)
      ensures Holder(targets, b.target, b.test) == Some(targets[i])
      ensures Runnable(targets[i], b.test, c.meta) <==> CanRun(targets[i], b.test, c.meta)
    {
      HolderExactly(targets, b.target, b.test, i);
      RunnableExactly(targets[i], b.test, c.meta);
    }
  }

  ghost predicate BindingsHold(c: Context, p: Payload) {
    forall id | id in p.bindings ::
      var list := p.bindings[id];
      list != [] && Ordered(BindingLeq, list) && Distinct(list) && forall b | b in list :: Supports(c, p.targets, id, b)
  }

  lemma BindingsExactly(c: Context, p: Payload)
    ensures BindingsErrors(c, p) == {} <==> BindingsHold(c, p)
  {
    hide BindingsErrors, ListErrors, BindingErrors, Supports, Sort, Ordered, Distinct, BindingLeq;
    BindingsFineExactly(c, p);
    BindingOrder();
    forall id | id in p.bindings
      ensures ListErrors(c, p.targets, id, p.bindings[id]) == {} <==>
              var list := p.bindings[id];
              && list != [] && Ordered(BindingLeq, list) && Distinct(list)
              && forall b | b in list :: Supports(c, p.targets, id, b)
    {
      var list := p.bindings[id];
      ListFineExactly(c, p.targets, id, list);
      SortedExactly(BindingLeq, list);
      forall b | b in list
        ensures BindingErrors(c, p.targets, id, b) == {} <==> Supports(c, p.targets, id, b)
      {
        EntryExactly(c, p.targets, id, b);
      }
    }
  }

  predicate Precedes(a: string, b: string) {
    StringLeq(a, b) && a != b
  }

  /** By name, then by kinds, then by path. */
  predicate InOrder(a: Target, b: Target) {
    || Precedes(a.name, b.name)
    || (a.name == b.name && ListLeq(a.kinds, b.kinds) && a.kinds != b.kinds)
    || (a.name == b.name && a.kinds == b.kinds && StringLeq(a.path, b.path))
  }

  predicate SortedNames(names: seq<string>) {
    forall i, j | 0 <= i < j < |names| :: Precedes(names[i], names[j])
  }

  /** Targets in strict order, each with strictly sorted tests, and strictly sorted ignored tests among them. */
  predicate TargetsHold(targets: seq<Target>) {
    && targets != []
    && (forall i, j | 0 <= i < j < |targets| ::
          && InOrder(targets[i], targets[j])
          && (targets[i].name != targets[j].name || targets[i].kinds != targets[j].kinds ||
              targets[i].path != targets[j].path))
    && (forall t | t in targets ::
          SortedNames(t.tests) && SortedNames(t.ignored) && forall x | x in t.ignored :: x in t.tests)
  }

  lemma SortedNamesExactly(names: seq<string>)
    ensures Ordered(StringLeq, names) && Distinct(names) <==> SortedNames(names)
  {
    hide StringLeq;
    if SortedNames(names) {
      forall i, j | 0 <= i < j < |names|
        ensures StringLeq(names[i], names[j]) && names[i] != names[j]
      {
        assert Precedes(names[i], names[j]);
      }
    }
  }

  lemma TargetListExactly(targets: seq<Target>)
    ensures TargetErrors(targets) == {} <==> TargetsHold(targets)
  {
    TargetsExactly(targets);
    hide StringLeq, ListLeq, SortedNames, TargetErrors, Distinct;
    forall t | t in targets
      ensures WellFormed(t) <==>
              SortedNames(t.tests) && SortedNames(t.ignored) && forall x | x in t.ignored :: x in t.tests
    {
      SortedNamesExactly(t.tests);
      SortedNamesExactly(t.ignored);
    }
    hide WellFormed;
    forall i, j | 0 <= i < j < |targets|
      ensures TargetLeq(targets[i], targets[j]) <==> InOrder(targets[i], targets[j])
    {
      OrderExactly(targets[i], targets[j]);
    }
    hide TargetLeq, InOrder;
    if TargetsHold(targets) {
      assert forall i, j | 0 <= i < j < |targets| :: InOrder(targets[i], targets[j]);
      assert Ordered(TargetLeq, targets);
    }
  }

  lemma OrderExactly(a: Target, b: Target)
    ensures TargetLeq(a, b) <==> InOrder(a, b)
  {
    hide StringLeq, ListLeq;
  }

  /**
  The verifier accepts a manifest if and only if its header matches, its target
  list is well formed, every declared id is bound or deferred as its kind demands,
  every list is sorted without repetition, and every binding is supported.
  */
  lemma VerifiesExactly(c: Context, digest: Digest, head: Option<(string, string)>, d: Document)
    ensures Verify(c, digest, head, d) == {} <==>
            && HeaderHolds(c, digest, head, d) && TargetsHold(d.payload.targets)
            && CoverageHolds(c, d.payload) && DeferredHolds(c, d.payload) && BindingsHold(c, d.payload)
            && c.required <= c.all && c.required <= c.reference
  {
    hide HeaderErrors, HeadErrors, TargetErrors, CoverageErrors, DeferredErrors, BindingsErrors;
    hide HeaderHolds, CoverageHolds, DeferredHolds, BindingsHold, TargetsHold;
    HeaderExactly(c, digest, head, d);
    TargetListExactly(d.payload.targets);
    CoverageExactly(c, d.payload);
    DeferredExactly(c, d.payload);
    BindingsExactly(c, d.payload);
    RequiredExactly(c);
  }

  lemma RequiredExactly(c: Context)
    ensures RequiredErrors(c) == {} <==> c.required <= c.all && c.required <= c.reference
  {
    var errors := RequiredErrors(c);
    assert forall r | r in c.required && r !in c.all :: RequiredUnknown(r) in errors;
    assert forall r | r in c.required && r !in c.reference :: RequiredWithoutExecutor(r) in errors;
  }
}
