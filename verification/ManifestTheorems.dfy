/** When the verifier accepts what the builder built, and what any accepted manifest proves. */
module ManifestTheorems {
  import opened Wrappers
  import opened Ordering
  import opened ManifestModel
  import opened ManifestPaths

  // ----- Binding lists -----

  lemma BindingOrder()
    ensures TotalPreorder(BindingLeq)
  {
    hide ListLeq;
    forall a, b
      ensures BindingLeq(a, b) || BindingLeq(b, a)
    {
      ListTotal([a.target, a.test, ViaText(a.via)], [b.target, b.test, ViaText(b.via)]);
    }
    forall a, b, c | BindingLeq(a, b) && BindingLeq(b, c)
      ensures BindingLeq(a, c)
    {
      ListTransitive([a.target, a.test, ViaText(a.via)], [b.target, b.test, ViaText(b.via)],
                     [c.target, c.test, ViaText(c.via)]);
    }
  }

  lemma DistinctCounts<T>(s: seq<T>)
    ensures Distinct(s) <==> forall x :: multiset(s)[x] <= 1
  {
    if !Distinct(s) {
      var i, j :| 0 <= i < j < |s| && s[i] == s[j];
      assert s == s[..j] + [s[j]] + s[j + 1..];
      assert s[i] in s[..j];
      assert multiset(s)[s[i]] >= 2;
    } else {
      forall x
        ensures multiset(s)[x] <= 1
      {
        AtMostOnce(s, x);
      }
    }
  }

  lemma {:induction false} AtMostOnce<T>(s: seq<T>, x: T)
    requires Distinct(s)
    ensures multiset(s)[x] <= 1
    decreases |s|
  {
    if s != [] {
      var before := s[..|s| - 1];
      assert s == before + [s[|s| - 1]];
      AtMostOnce(before, x);
      if x == s[|s| - 1] {
        assert x !in before;
      }
    }
  }

  /** A suite's list is in order, has no repetition, and holds exactly what was found. */
  lemma SuiteList(targets: seq<Target>, suite: string, meta: set<string>)
    ensures var list := SuiteBindings(targets, suite, meta);
            && list == Sort(BindingLeq, list) && Distinct(list)
            && forall b :: b in list <==>
                 b in TargetBinding(targets, suite, meta) || b in AllTestBindings(targets, suite, meta)
  {
    hide TargetBinding, AllTestBindings, Unique, BindingLeq, Sort;
    var found := TargetBinding(targets, suite, meta) + AllTestBindings(targets, suite, meta);
    var list := SuiteBindings(targets, suite, meta);
    BindingOrder();
    SortOrders(BindingLeq, Unique(found));
    SortKeeps(BindingLeq, list);
    DistinctCounts(list);
    DistinctCounts(Unique(found));
    forall b
      ensures b in list <==> b in found
    {
      assert b in multiset(list) <==> b in multiset(Unique(found));
    }
  }

  // ----- The builder's own bindings -----

  /** Whether the first target of a name that lists a runnable test of a declared suite ignores that test. */
  predicate Shadowed(c: Context, targets: seq<Target>) {
    exists t, test | t in targets && test in t.tests ::
      && Runnable(t, test, c.meta)
      && (Short(test) in c.declared.conformance || Short(test) in c.declared.scenario)
      && ShadowedBy(targets, t.name, test)
  }

  predicate ShadowedBy(targets: seq<Target>, name: string, test: string) {
    var t := Holder(targets, name, test);
    t.Some? && test in t.value.ignored
  }

  lemma {:induction false} IdsExactly(d: Declared, id: Id)
    ensures id in Ids(d) <==>
            match id
            case Conformance(s) => s in d.conformance
            case Scenario(s) => s in d.scenario
            case Differential(s) => s in d.differential
  {
    var a := seq(|d.conformance|, i requires 0 <= i < |d.conformance| => Conformance(d.conformance[i]));
    var b := seq(|d.scenario|, i requires 0 <= i < |d.scenario| => Scenario(d.scenario[i]));
    var c := seq(|d.differential|, i requires 0 <= i < |d.differential| => Differential(d.differential[i]));
    assert forall i | 0 <= i < |d.conformance| :: a[i] == Conformance(d.conformance[i]);
    assert forall i | 0 <= i < |d.scenario| :: b[i] == Scenario(d.scenario[i]);
    assert forall i | 0 <= i < |d.differential| :: c[i] == Differential(d.differential[i]);
    assert Ids(d) == a + b + c;
  }

  lemma TargetEntryFine(c: Context, targets: seq<Target>, id: Id, b: Binding)
    requires !id.Differential? && b in TargetBinding(targets, id.suite, c.meta)
    ensures BindingErrors(c, targets, id, b) == {}
  {
  }

  /** A test entry of the builder is refused exactly when its test is shadowed. */
  lemma TestEntryExactly(c: Context, targets: seq<Target>, id: Id, b: Binding)
    requires !id.Differential? && b in AllTestBindings(targets, id.suite, c.meta)
    ensures BindingErrors(c, targets, id, b) == {} <==> !ShadowedBy(targets, b.target, b.test)
  {
    hide AllTestBindings, Holder, Short;
    var t :| t in targets && t.name == b.target && Runnable(t, b.test, c.meta);
    assert TestIgnored(id) in Flag(true, TestIgnored(id));
  }

  predicate EntriesFine(c: Context, targets: seq<Target>, id: Id, list: seq<Binding>) {
    forall b | b in list :: BindingErrors(c, targets, id, b) == {}
  }

  lemma ListFineExactly(c: Context, targets: seq<Target>, id: Id, list: seq<Binding>)
    ensures ListErrors(c, targets, id, list) == {} <==>
            list != [] && list == Sort(BindingLeq, list) && Distinct(list) && EntriesFine(c, targets, id, list)
  {
    hide Sort, Distinct, BindingErrors, BindingLeq;
    if list != [] {
      var errors := set b, e | b in list && e in BindingErrors(c, targets, id, b) :: e;
      if EntriesFine(c, targets, id, list) {
        assert errors == {};
      } else {
        var b :| b in list && BindingErrors(c, targets, id, b) != {};
        var e :| e in BindingErrors(c, targets, id, b);
        assert e in errors;
      }
      assert BindingsUnsorted(id) in Flag(true, BindingsUnsorted(id));
      assert DuplicateBindings(id) in Flag(true, DuplicateBindings(id));
    }
  }

  /** Whether some runnable test of one suite is shadowed. */
  predicate SuiteShadowed(targets: seq<Target>, suite: string, meta: set<string>) {
    exists b | b in AllTestBindings(targets, suite, meta) :: ShadowedBy(targets, b.target, b.test)
  }

  lemma SuiteFineExactly(c: Context, targets: seq<Target>, id: Id)
    requires !id.Differential? && Bound(c, targets, id) != []
    ensures ListErrors(c, targets, id, Bound(c, targets, id)) == {} <==> !SuiteShadowed(targets, id.suite, c.meta)
  {
    hide AllTestBindings, TargetBinding, ListErrors, BindingErrors, SuiteBindings, ShadowedBy, Sort, Distinct;
    var list := SuiteBindings(targets, id.suite, c.meta);
    SuiteList(targets, id.suite, c.meta);
    ListFineExactly(c, targets, id, list);
    forall b | b in list
      ensures BindingErrors(c, targets, id, b) == {} <==>
              !(b in AllTestBindings(targets, id.suite, c.meta) && ShadowedBy(targets, b.target, b.test))
    {
      if b in AllTestBindings(targets, id.suite, c.meta) {
        TestEntryExactly(c, targets, id, b);
      } else {
        TargetEntryFine(c, targets, id, b);
      }
    }
  }

  lemma OracleFine(c: Context, targets: seq<Target>, id: Id)
    requires id.Differential? && Bindable(c, id) && Bound(c, targets, id) != []
    ensures ListErrors(c, targets, id, Bound(c, targets, id)) == {}
  {
    hide Sort, ListErrors;
    var list := Bound(c, targets, id);
    SortKeeps(BindingLeq, list);
    ListFineExactly(c, targets, id, list);
  }

  // ----- Agreement -----

  lemma BindingsFineExactly(c: Context, p: Payload)
    ensures BindingsErrors(c, p) == {} <==>
            forall id | id in p.bindings :: ListErrors(c, p.targets, id, p.bindings[id]) == {}
  {
    hide ListErrors;
    var errors := BindingsErrors(c, p);
    if id :| id in p.bindings && ListErrors(c, p.targets, id, p.bindings[id]) != {} {
      var e :| e in ListErrors(c, p.targets, id, p.bindings[id]);
      assert e in errors;
    }
  }

  lemma ShadowedExactly(c: Context, targets: seq<Target>)
    ensures Shadowed(c, targets) <==>
            exists id | id in Ids(c.declared) :: !id.Differential? && SuiteShadowed(targets, id.suite, c.meta)
  {
    hide Ids, ShadowedBy, AllTestBindings, Short;
    if Shadowed(c, targets) {
      var t, test :| t in targets && test in t.tests && Runnable(t, test, c.meta) &&
        (Short(test) in c.declared.conformance || Short(test) in c.declared.scenario) &&
        ShadowedBy(targets, t.name, test);
      var id := if Short(test) in c.declared.conformance then Conformance(Short(test)) else Scenario(Short(test));
      IdsExactly(c.declared, id);
      assert Binding(t.name, test, ViaTest) in AllTestBindings(targets, id.suite, c.meta);
    }
    if id :| id in Ids(c.declared) && !id.Differential? && SuiteShadowed(targets, id.suite, c.meta) {
      var b :| b in AllTestBindings(targets, id.suite, c.meta) && ShadowedBy(targets, b.target, b.test);
      IdsExactly(c.declared, id);
      var t :| t in targets && t.name == b.target && Runnable(t, b.test, c.meta);
    }
  }

  /** What the builder binds is refused exactly when a runnable test is shadowed. */
  lemma BuiltBindingsExactly(c: Context, p: Payload)
    requires p.bindings == Bindings(c, p.targets, Ids(c.declared))
    ensures BindingsErrors(c, p) == {} <==> !Shadowed(c, p.targets)
  {
    hide Ids, Bound, ListErrors, BindingsErrors, Shadowed, AllTestBindings, ShadowedBy;
    BindingsFineExactly(c, p);
    ShadowedExactly(c, p.targets);
    forall id | id in Ids(c.declared) && !id.Differential?
      ensures SuiteShadowed(p.targets, id.suite, c.meta) ==> id in p.bindings
      ensures id in p.bindings ==>
                (ListErrors(c, p.targets, id, p.bindings[id]) == {} <==> !SuiteShadowed(p.targets, id.suite, c.meta))
    {
      if id in p.bindings {
        SuiteFineExactly(c, p.targets, id);
      } else {
        NothingToShadow(c, p.targets, id);
      }
    }
    forall id | id in p.bindings && id.Differential?
      ensures ListErrors(c, p.targets, id, p.bindings[id]) == {}
    {
      OracleFine(c, p.targets, id);
    }
  }

  lemma NothingToShadow(c: Context, targets: seq<Target>, id: Id)
    requires !id.Differential? && Bound(c, targets, id) == []
    ensures !SuiteShadowed(targets, id.suite, c.meta)
  {
    hide AllTestBindings, TargetBinding, SuiteBindings, ShadowedBy;
    SuiteList(targets, id.suite, c.meta);
  }

  lemma BuiltCoverage(c: Context, p: Payload)
    requires p.bindings == Bindings(c, p.targets, Ids(c.declared)) &&
             p.unbound == Unbound(c, p.targets, Ids(c.declared))
    ensures CoverageErrors(c, p) == {} <==> p.unbound == []
  {
    hide Ids, Bound, Unbound;
    if p.unbound != [] {
      assert p.unbound[0] in p.unbound;
      assert UnboundEvidence(p.unbound[0].0) in CoverageErrors(c, p);
    }
    assert forall id | id in Ids(c.declared) && Bindable(c, id) && id !in p.bindings ::
             (id, Reason(c, id)) in p.unbound;
  }

  lemma BuiltDeferred(c: Context, p: Payload)
    requires p.deferred == Deferred(c, Ids(c.declared))
    ensures DeferredErrors(c, p) == {}
  {
    hide Ids, Deferred;
    forall id | id in Ids(c.declared) && !Bindable(c, id)
      ensures exists x | x in p.deferred :: x.0 == id
    {
      assert (id, DEFERRED_REASON) in p.deferred;
    }
  }

  /**
  The verifier accepts a freshly built manifest exactly when the target list is
  well formed, nothing is unbound, and no runnable test is shadowed.
  */
  lemma BuilderVerifierAgree(c: Context, digest: Digest, commit: string, tree: string, notes: string,
                             targets: seq<Target>,
                             head: Option<(string, string)>)
    requires Build(c, digest, commit, tree, notes, targets).Some?
    requires head == None || head == Some((commit, tree))
    ensures var d := Build(c, digest, commit, tree, notes, targets).value;
            Verify(c, digest, head, d) == {} <==>
            TargetErrors(targets) == {} && d.payload.unbound == [] && !Shadowed(c, targets)
  {
    hide TargetErrors, CoverageErrors, DeferredErrors, BindingsErrors, Shadowed, Ids, Bindings, Deferred, Unbound;
    var p := Build(c, digest, commit, tree, notes, targets).value.payload;
    BuiltBindingsExactly(c, p);
    BuiltCoverage(c, p);
    BuiltDeferred(c, p);
    assert RequiredErrors(c) == {};
  }

  /** The builder gives up exactly when the verifier would refuse every manifest over the required categories. */
  lemma BuildFailsExactly(c: Context, digest: Digest, commit: string, tree: string, notes: string, targets: seq<Target>)
    ensures Build(c, digest, commit, tree, notes, targets).None? <==> RequiredErrors(c) != {}
  {
    if r :| r in c.required && r !in c.all {
      assert RequiredUnknown(r) in RequiredErrors(c);
    } else if r :| r in c.required && r !in c.reference {
      assert RequiredWithoutExecutor(r) in RequiredErrors(c);
    }
  }

  // ----- Shadowing -----

  /** When no test path is listed by two targets of one name, nothing is shadowed. */
  lemma UniquePathsNotShadowed(c: Context, targets: seq<Target>)
    requires forall t, u, test | t in targets && u in targets && test in t.tests && test in u.tests ::
               t.name == u.name ==> t == u
    ensures !Shadowed(c, targets)
  {
    hide Short, Holder;
  }

  const IGNORING := Target("a", ["bin"], "p", ["s"], ["s"])
  const RUNNING := Target("a", ["lib"], "q", ["s"], [])

  lemma ExampleShadowed(c: Context)
    requires c.declared == Declared(["s"], [], []) && c.meta == {}
    ensures Shadowed(c, [IGNORING, RUNNING])
    ensures Runnable(RUNNING, "s", c.meta) && Short("s") == "s"
  {
    var targets := [IGNORING, RUNNING];
    assert Runnable(RUNNING, "s", c.meta) && RUNNING in targets && "s" in RUNNING.tests;
    assert Holder(targets, "a", "s") == Some(IGNORING);
    assert "s" in IGNORING.ignored;
  }

  lemma ExampleBound(c: Context, id: Id)
    requires c.meta == {} && id == Conformance("s") && Runnable(RUNNING, "s", c.meta) && Short("s") == "s"
    ensures Binding("a", "s", ViaTest) in Bound(c, [IGNORING, RUNNING], id)
  {
    var targets := [IGNORING, RUNNING];
    hide TargetBinding, AllTestBindings, SuiteBindings, Runnable, Short;
    SuiteList(targets, "s", c.meta);
    assert RUNNING in targets;
    assert Binding("a", "s", ViaTest) in AllTestBindings(targets, "s", c.meta);
  }

  lemma ExampleIgnored(c: Context, id: Id)
    requires id == Conformance("s")
    ensures TestIgnored(id) in BindingErrors(c, [IGNORING, RUNNING], id, Binding("a", "s", ViaTest))
  {
    hide Short;
    assert Holder([IGNORING, RUNNING], "a", "s") == Some(IGNORING);
    assert "s" in IGNORING.ignored;
  }

  /** An error of one binding is an error of the manifest. */
  lemma EntryReported(c: Context, p: Payload, id: Id, b: Binding, e: Error)
    requires id in p.bindings && b in p.bindings[id] && e in BindingErrors(c, p.targets, id, b)
    ensures e in BindingsErrors(c, p)
  {
    hide Sort, Distinct, BindingErrors, BindingLeq;
    assert e in ListErrors(c, p.targets, id, p.bindings[id]);
  }

  lemma ExampleTargets()
    ensures TargetErrors([IGNORING, RUNNING]) == {}
  {
    var targets := [IGNORING, RUNNING];
    assert TargetLeq(IGNORING, RUNNING) by {
      assert ["bin"][0] == "bin" && ["lib"][0] == "lib" && "bin"[0] < "lib"[0];
    }
    assert Ordered(TargetLeq, targets) && !SameKey(IGNORING, RUNNING);
    assert WellFormed(IGNORING) && WellFormed(RUNNING);
    TargetsExactly(targets);
  }

  /**
  Shadowing happens: two targets of one name, the first ignoring the test that the
  second can run. The list is well formed and nothing is unbound.
  */
  lemma ShadowingHappens(c: Context, digest: Digest, commit: string, tree: string, notes: string)
    requires RequiredExist(c) && c.declared == Declared(["s"], [], []) && c.meta == {}
    ensures var d := Build(c, digest, commit, tree, notes, [IGNORING, RUNNING]).value;
            && d.payload.unbound == [] && TargetErrors(d.payload.targets) == {}
            && TestIgnored(Conformance("s")) in Verify(c, digest, None, d)
  {
    var targets, id := [IGNORING, RUNNING], Conformance("s");
    hide TargetErrors, Holder, Short, Bindings, Deferred, Bound, Shadowed, Runnable, Unbound, Ids, BindingErrors;
    hide HeaderErrors, CoverageErrors, DeferredErrors, RequiredErrors, BindingsErrors, HeadErrors;
    ExampleShadowed(c);
    ExampleTargets();
    ExampleBound(c, id);
    ExampleIgnored(c, id);
    var p := Build(c, digest, commit, tree, notes, targets).value.payload;
    if p.unbound != [] {
      assert p.unbound[0] in p.unbound;
      IdsExactly(c.declared, p.unbound[0].0);
    }
    IdsExactly(c.declared, id);
    EntryReported(c, p, id, Binding("a", "s", ViaTest), TestIgnored(id));
  }

  // ----- Target lists -----

  lemma {:induction false} UniqueKeeps<T(!new)>(s: seq<T>)
    requires Distinct(s)
    ensures Unique(s) == s
    decreases |s|
  {
    if s != [] {
      UniqueKeeps(s[..|s| - 1]);
      assert s == s[..|s| - 1] + [s[|s| - 1]];
    }
  }

  lemma StringOrder()
    ensures TotalPreorder(StringLeq)
  {
    hide StringLeq;
    forall a, b
      ensures StringLeq(a, b) || StringLeq(b, a)
    {
      StringTotal(a, b);
    }
    forall a, b, c | StringLeq(a, b) && StringLeq(b, c)
      ensures StringLeq(a, c)
    {
      StringTransitive(a, b, c);
    }
  }

  lemma SortedUniqueExactly(s: seq<string>)
    ensures s == Sort(StringLeq, Unique(s)) <==> Ordered(StringLeq, s) && Distinct(s)
  {
    hide StringLeq, Sort, Unique, Ordered;
    StringOrder();
    SortOrders(StringLeq, Unique(s));
    if s == Sort(StringLeq, Unique(s)) {
      DistinctCounts(Unique(s));
      DistinctCounts(s);
    }
    if Ordered(StringLeq, s) && Distinct(s) {
      UniqueKeeps(s);
      SortKeeps(StringLeq, s);
    }
  }

  lemma TargetOrder()
    ensures TotalPreorder(TargetLeq)
  {
    hide StringLeq, ListLeq;
    forall a, b
      ensures TargetLeq(a, b) || TargetLeq(b, a)
    {
      StringTotal(a.name, b.name);
      ListTotal(a.kinds, b.kinds);
      StringTotal(a.path, b.path);
    }
    forall a, b, c | TargetLeq(a, b) && TargetLeq(b, c)
      ensures TargetLeq(a, c)
    {
      TargetTransitive(a, b, c);
    }
  }

  lemma TargetTransitive(a: Target, b: Target, c: Target)
    requires TargetLeq(a, b) && TargetLeq(b, c)
    ensures TargetLeq(a, c)
  {
    hide StringLeq, ListLeq;
    if a.name != b.name && b.name != c.name {
      StringTransitive(a.name, b.name, c.name);
      StringTotal(a.name, b.name);
    } else if a.name == b.name == c.name {
      if a.kinds != b.kinds && b.kinds != c.kinds {
        ListTransitive(a.kinds, b.kinds, c.kinds);
        ListTotal(a.kinds, b.kinds);
      } else if a.kinds == b.kinds == c.kinds {
        StringTransitive(a.path, b.path, c.path);
      }
    }
  }

  predicate WellFormed(t: Target) {
    && Ordered(StringLeq, t.tests) && Distinct(t.tests)
    && Ordered(StringLeq, t.ignored) && Distinct(t.ignored)
    && forall test | test in t.ignored :: test in t.tests
  }

  lemma OneTargetExactly(before: seq<Target>, t: Target)
    ensures OneTargetErrors(before, t) == {} <==> WellFormed(t) && forall x | x in before :: !SameKey(x, t)
  {
    hide Sort, Unique, Ordered, Distinct, StringLeq;
    SortedUniqueExactly(t.tests);
    SortedUniqueExactly(t.ignored);
    assert DuplicateTarget(t) in Flag(true, DuplicateTarget(t)) && TestsUnsorted(t) in Flag(true, TestsUnsorted(t));
    assert IgnoredUnsorted(t) in Flag(true, IgnoredUnsorted(t)) &&
           IgnoredNotListed(t) in Flag(true, IgnoredNotListed(t));
  }

  /** A target list passes exactly when it is non-empty, in order, of distinct keys and of well-formed targets. */
  lemma TargetsExactly(targets: seq<Target>)
    ensures TargetErrors(targets) == {} <==>
            && targets != [] && Ordered(TargetLeq, targets)
            && (forall i, j | 0 <= i < j < |targets| :: !SameKey(targets[i], targets[j]))
            && (forall t | t in targets :: WellFormed(t))
  {
    hide Sort, Ordered, TargetLeq, OneTargetErrors, WellFormed, SameKey;
    if targets != [] {
      TargetOrder();
      SortedExactly(TargetLeq, targets);
      assert TargetsUnsorted in Flag(true, TargetsUnsorted);
      var errors := set i, e | 0 <= i < |targets| && e in OneTargetErrors(targets[..i], targets[i]) :: e;
      forall i | 0 <= i < |targets|
        ensures OneTargetErrors(targets[..i], targets[i]) == {} <==>
                WellFormed(targets[i]) && forall j | 0 <= j < i :: !SameKey(targets[j], targets[i])
      {
        OneTargetExactly(targets[..i], targets[i]);
        assert forall j | 0 <= j < i :: targets[..i][j] == targets[j];
      }
      if errors != {} {
        var e :| e in errors;
        var i :| 0 <= i < |targets| && e in OneTargetErrors(targets[..i], targets[i]);
        assert OneTargetErrors(targets[..i], targets[i]) != {};
      } else {
        forall i | 0 <= i < |targets|
          ensures OneTargetErrors(targets[..i], targets[i]) == {}
        {
          assert forall e | e in OneTargetErrors(targets[..i], targets[i]) :: e in errors;
        }
      }
    }
  }

  // ----- What an accepted manifest proves -----

  /** A compiled test that can run, and whose path names the suite or whose target is the suite's. */
  ghost predicate Proves(targets: seq<Target>, meta: set<string>, suite: string, t: Target, test: string) {
    t in targets && CanRun(t, test, meta) && (Names(test, suite) || (t.name == suite && "test" in t.kinds))
  }

  /** Every declared conformance or scenario id of an accepted manifest has a compiled test that can run. */
  lemma AcceptedIsProven(c: Context, digest: Digest, head: Option<(string, string)>, d: Document, id: Id)
    returns (t: Target, test: string)
    requires Verify(c, digest, head, d) == {} && id in Ids(c.declared) && !id.Differential?
    ensures Proves(d.payload.targets, c.meta, id.suite, t, test)
  {
    hide HeaderErrors, TargetErrors, DeferredErrors, RequiredErrors, HeadErrors, Ids, ListErrors, BindingsErrors,
         Sort, Distinct;
    var p := d.payload;
    assert id !in p.bindings ==> MissingBinding(id) in CoverageErrors(c, p);
    BindingsFineExactly(c, p);
    ListFineExactly(c, p.targets, id, p.bindings[id]);
    t, test := EntryProves(c, p.targets, id, p.bindings[id][0]);
  }

  lemma EntryProves(c: Context, targets: seq<Target>, id: Id, b: Binding) returns (t: Target, test: string)
    requires !id.Differential? && BindingErrors(c, targets, id, b) == {}
    ensures Proves(targets, c.meta, id.suite, t, test)
  {
    hide Short, Holder, Integration, Names;
    if b.via == ViaTarget {
      assert WrongSuite(id) in Flag(true, WrongSuite(id)) && NothingRunnable(id) in Flag(true, NothingRunnable(id));
      t := Integration(targets, b.target).value;
      test :| test in t.tests && Runnable(t, test, c.meta);
    } else {
      assert WrongTest(id) in Flag(true, WrongTest(id)) && TestIgnored(id) in Flag(true, TestIgnored(id));
      assert TestIsMeta(id) in Flag(true, TestIsMeta(id));
      t, test := Holder(targets, b.target, b.test).value, b.test;
      ShortExactly(test, id.suite);
    }
    RunnableExactly(t, test, c.meta);
  }

  /** Every declared differential id of an accepted manifest is required and executable, or listed as deferred. */
  lemma AcceptedDifferential(c: Context, digest: Digest, head: Option<(string, string)>, d: Document, id: Id)
    requires Verify(c, digest, head, d) == {} && id in Ids(c.declared) && id.Differential?
    ensures id.suite in c.all ==> id.suite in c.reference && id.suite in c.required && id in d.payload.bindings
    ensures id.suite !in c.all ==> exists x | x in d.payload.deferred :: x.0 == id && x.1 != []
  {
    hide HeaderErrors, TargetErrors, RequiredErrors, HeadErrors, Ids, ListErrors, BindingsErrors, Sort, Distinct;
    var p := d.payload;
    if id.suite in c.all {
      assert id !in p.bindings ==> MissingBinding(id) in CoverageErrors(c, p);
      BindingsFineExactly(c, p);
      ListFineExactly(c, p.targets, id, p.bindings[id]);
      assert NoExecutor(id) in Flag(true, NoExecutor(id)) && NotRequired(id) in Flag(true, NotRequired(id));
      assert BindingErrors(c, p.targets, id, p.bindings[id][0]) == {};
    } else {
      assert !(exists x | x in p.deferred :: x.0 == id) ==> MissingDeferred(id) in DeferredErrors(c, p);
      var x :| x in p.deferred && x.0 == id;
      assert x.1 == [] ==> NoReason(x.0) in DeferredErrors(c, p);
    }
  }

  /** The digest covers only the payload: the verdict does not depend on the toolchain and source notes. */
  lemma NotesAreNotCovered(c: Context, digest: Digest, head: Option<(string, string)>, d: Document, notes: string)
    ensures Verify(c, digest, head, d.(notes := notes)) == Verify(c, digest, head, d)
  {
    hide TargetErrors, CoverageErrors, DeferredErrors, RequiredErrors, BindingsErrors;
  }
}
