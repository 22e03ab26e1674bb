/** The builder's index and binding loops, and the verifier's loop over the bindings. */
module ManifestBuilder {
  import opened Wrappers
  import opened Ordering
  import opened ManifestModel

  // ----- The index -----

  /** The compiled tests with a short name, in target order. */
  function Holders(t: Target, tests: seq<string>, suite: string): seq<(Target, string)> {
    if tests == [] then []
    else
      Holders(t, tests[..|tests| - 1], suite) +
      if Short(tests[|tests| - 1]) == suite then [(t, tests[|tests| - 1])] else []
  }

  function AllHolders(targets: seq<Target>, suite: string): seq<(Target, string)> {
    if targets == [] then []
    else
      var last := targets[|targets| - 1];
      AllHolders(targets[..|targets| - 1], suite) + Holders(last, last.tests, suite)
  }

  type ShortIndex = map<string, seq<(Target, string)>>

  function Listed(m: ShortIndex, suite: string): seq<(Target, string)> {
    if suite in m then m[suite] else []
  }

  function First(m: map<string, Target>, suite: string): Option<Target> {
    if suite in m then Some(m[suite]) else None
  }

  lemma {:induction false} IntegrationThen(targets: seq<Target>, last: Target, suite: string)
    ensures Integration(targets + [last], suite) ==
            if Integration(targets, suite).Some? then Integration(targets, suite)
            else if IsIntegration(last, suite) then Some(last) else None
  {
    if targets == [] {
      assert (targets + [last])[1..] == [];
    } else {
      assert (targets + [last])[1..] == targets[1..] + [last];
      IntegrationThen(targets[1..], last, suite);
    }
  }

  /** An integration target is remembered unless one of its name was. */
  function WithFirst(m: map<string, Target>, t: Target): (r: map<string, Target>)
    ensures forall s :: First(r, s) ==
              if First(m, s).Some? then First(m, s) else if IsIntegration(t, s) then Some(t) else None
  {
    if "test" in t.kinds && t.name !in m then m[t.name := t] else m
  }

  function WithPair(m: ShortIndex, name: string, pair: (Target, string)): (r: ShortIndex)
    ensures forall s :: Listed(r, s) == if s == name then Listed(m, s) + [pair] else Listed(m, s)
  {
    m[name := Listed(m, name) + [pair]]
  }

  method IndexTests(t: Target, start: ShortIndex) returns (short: ShortIndex)
    ensures forall s :: Listed(short, s) == Listed(start, s) + Holders(t, t.tests, s)
  {
    hide Short, WithPair, Listed;
    short := start;
    for i := 0 to |t.tests|
      invariant forall s :: Listed(short, s) == Listed(start, s) + Holders(t, t.tests[..i], s)
    {
      assert t.tests[..i + 1][..i] == t.tests[..i];
      short := WithPair(short, Short(t.tests[i]), (t, t.tests[i]));
    }
    assert t.tests[..|t.tests|] == t.tests;
  }

  /** The two dictionaries answer what a scan of the targets would. */
  method IndexTargets(targets: seq<Target>) returns (integration: map<string, Target>, short: ShortIndex)
    ensures forall s :: First(integration, s) == Integration(targets, s)
    ensures forall s :: Listed(short, s) == AllHolders(targets, s)
  {
    hide Holders, Integration, Listed, First, WithFirst, IsIntegration;
    integration, short := map[], map[];
    assert forall s :: Listed(short, s) == [] by { EmptyIndex(); }
    assert forall s :: First(integration, s) == None && Integration([], s) == None by { EmptyIndex(); }
    for i := 0 to |targets|
      invariant forall s :: First(integration, s) == Integration(targets[..i], s)
      invariant forall s :: Listed(short, s) == AllHolders(targets[..i], s)
    {
      var t := targets[i];
      assert targets[..i + 1][..i] == targets[..i] && targets[..i + 1] == targets[..i] + [t];
      forall s
        ensures Integration(targets[..i + 1], s) ==
                if First(integration, s).Some? then First(integration, s)
                else if IsIntegration(t, s) then Some(t) else None
      {
        IntegrationThen(targets[..i], t, s);
      }
      integration := WithFirst(integration, t);
      short := IndexTests(t, short);
    }
    assert targets[..|targets|] == targets;
  }

  lemma EmptyIndex()
    ensures forall s :: Listed(map[], s) == []
    ensures forall s :: First(map[], s) == None && Integration([], s) == None
  {
  }

  // ----- Binding -----

  /** The pairs of an index entry that can run, as bindings. */
  function Kept(pairs: seq<(Target, string)>, suite: string, meta: set<string>): seq<Binding> {
    if pairs == [] then []
    else
      var before, last := Kept(pairs[..|pairs| - 1], suite, meta), pairs[|pairs| - 1];
      if last.1 !in last.0.ignored && suite !in meta then before + [Binding(last.0.name, last.1, ViaTest)] else before
  }

  lemma {:induction false} KeptConcat(a: seq<(Target, string)>, b: seq<(Target, string)>,
                                      suite: string, meta: set<string>)
    ensures Kept(a + b, suite, meta) == Kept(a, suite, meta) + Kept(b, suite, meta)
    decreases |b|
  {
    if b == [] {
      assert a + b == a;
    } else {
      assert (a + b)[..|a + b| - 1] == a + b[..|b| - 1];
      KeptConcat(a, b[..|b| - 1], suite, meta);
    }
  }

  lemma {:induction false} KeptHolders(t: Target, tests: seq<string>, suite: string, meta: set<string>)
    ensures Kept(Holders(t, tests, suite), suite, meta) == TestBindings(t, tests, suite, meta)
    decreases |tests|
  {
    hide Short;
    if tests != [] {
      KeptHolders(t, tests[..|tests| - 1], suite, meta);
      var pair := (t, tests[|tests| - 1]);
      KeptConcat(Holders(t, tests[..|tests| - 1], suite), [pair], suite, meta);
      assert TestBindings(t, tests[..|tests| - 1], suite, meta) + [] ==
             TestBindings(t, tests[..|tests| - 1], suite, meta);
      assert Holders(t, tests[..|tests| - 1], suite) + [] == Holders(t, tests[..|tests| - 1], suite);
      assert Kept([pair], suite, meta) ==
             if pair.1 !in t.ignored && suite !in meta then [Binding(t.name, pair.1, ViaTest)] else [] by {
        assert [pair][..0] == [];
      }
    }
  }

  lemma {:induction false} KeptAllHolders(targets: seq<Target>, suite: string, meta: set<string>)
    ensures Kept(AllHolders(targets, suite), suite, meta) == AllTestBindings(targets, suite, meta)
    decreases |targets|
  {
    hide Holders, TestBindings;
    if targets != [] {
      var before, last := targets[..|targets| - 1], targets[|targets| - 1];
      KeptAllHolders(before, suite, meta);
      KeptHolders(last, last.tests, suite, meta);
      KeptConcat(AllHolders(before, suite), Holders(last, last.tests, suite), suite, meta);
    }
  }

  /** One suite bound through the index. */
  method BindSuite(ghost targets: seq<Target>, target: Option<Target>, pairs: seq<(Target, string)>,
                   suite: string, meta: set<string>)
    returns (list: seq<Binding>)
    requires target == Integration(targets, suite) && pairs == AllHolders(targets, suite)
    ensures list == SuiteBindings(targets, suite, meta)
  {
    hide HasRunnable, Sort, Unique, AllHolders, AllTestBindings, Integration;
    var entries :=
      if target.Some? && HasRunnable(target.value, meta) then [Binding(target.value.name, "", ViaTarget)] else [];
    ghost var first := entries;
    assert first == TargetBinding(targets, suite, meta);
    hide TargetBinding;
    for i := 0 to |pairs|
      invariant entries == first + Kept(pairs[..i], suite, meta)
    {
      assert pairs[..i + 1][..i] == pairs[..i];
      var t, test := pairs[i].0, pairs[i].1;
      if test !in t.ignored && suite !in meta {
        entries := entries + [Binding(t.name, test, ViaTest)];
      }
    }
    assert pairs[..|pairs|] == pairs;
    KeptAllHolders(targets, suite, meta);
    list := Sort(BindingLeq, Unique(entries));
  }

  /** Every declared id bound, left unbound or deferred. */
  method BindDeclarations(c: Context, targets: seq<Target>)
    returns (r: Option<(map<Id, seq<Binding>>, seq<(Id, string)>, seq<(Id, string)>)>)
    ensures r == if RequiredExist(c) then
                   var ids := Ids(c.declared);
                   Some((Bindings(c, targets, ids), Unbound(c, targets, ids), Deferred(c, ids)))
                 else None
  {
    hide Ids, Bound, Integration, AllHolders, RequiredExist, Bindings, Unbound, Deferred;
    if !RequiredExist(c) {
      return None;
    }
    var integration, short := IndexTargets(targets);
    var ids := Ids(c.declared);
    var bindings: map<Id, seq<Binding>>, unbound: seq<(Id, string)>, deferred: seq<(Id, string)> := map[], [], [];
    NothingDeclared(c, targets);
    for i := 0 to |ids|
      invariant bindings == Bindings(c, targets, ids[..i])
      invariant unbound == Unbound(c, targets, ids[..i]) && deferred == Deferred(c, ids[..i])
    {
      var id := ids[i];
      assert ids[..i + 1] == ids[..i] + [id];
      OneMoreDeclared(c, targets, ids[..i], id);
      if id.Differential? && id.suite !in c.all {
        deferred := deferred + [(id, DEFERRED_REASON)];
      } else {
        var list := BindId(c, targets, integration, short, id);
        if list == [] {
          unbound := unbound + [(id, Reason(c, id))];
        } else {
          bindings := bindings[id := list];
        }
      }
    }
    assert ids[..|ids|] == ids;
    return Some((bindings, unbound, deferred));
  }

  lemma NothingDeclared(c: Context, targets: seq<Target>)
    ensures Bindings(c, targets, []) == map[] && Unbound(c, targets, []) == [] && Deferred(c, []) == []
  {
  }

  lemma OneMoreDeclared(c: Context, targets: seq<Target>, ids: seq<Id>, id: Id)
    ensures Bindings(c, targets, ids + [id]) ==
            if Bindable(c, id) && Bound(c, targets, id) != [] then
              Bindings(c, targets, ids)[id := Bound(c, targets, id)]
            else Bindings(c, targets, ids)
    ensures Unbound(c, targets, ids + [id]) ==
            Unbound(c, targets, ids) +
            if Bindable(c, id) && Bound(c, targets, id) == [] then [(id, Reason(c, id))] else []
    ensures Deferred(c, ids + [id]) == Deferred(c, ids) + if Bindable(c, id) then [] else [(id, DEFERRED_REASON)]
  {
    hide Bound, Bindable;
    assert (ids + [id])[..|ids|] == ids;
  }

  method BindId(c: Context, ghost targets: seq<Target>, integration: map<string, Target>, short: ShortIndex, id: Id)
    returns (list: seq<Binding>)
    requires forall s :: First(integration, s) == Integration(targets, s)
    requires forall s :: Listed(short, s) == AllHolders(targets, s)
    ensures list == Bound(c, targets, id)
  {
    hide SuiteBindings, Integration, AllHolders;
    if id.Differential? {
      list := if id.suite in c.reference && id.suite in c.required then [Binding(ORACLE_TARGET, id.suite, ViaOracle)]
              else [];
    } else {
      list := BindSuite(targets, First(integration, id.suite), Listed(short, id.suite), id.suite, c.meta);
    }
  }

  // ----- Verifying -----

  /** The errors of every binding list. */
  method VerifyBindings(c: Context, p: Payload) returns (errors: set<Error>)
    ensures errors == BindingsErrors(c, p)
  {
    hide ListErrors;
    errors := {};
    var left := p.bindings.Keys;
    while left != {}
      invariant left <= p.bindings.Keys
      invariant errors ==
                set id, e | id in p.bindings && id !in left && e in ListErrors(c, p.targets, id, p.bindings[id]) :: e
      decreases |left|
    {
      var id :| id in left;
      errors := errors + ListErrors(c, p.targets, id, p.bindings[id]);
      left := left - {id};
    }
  }
}
