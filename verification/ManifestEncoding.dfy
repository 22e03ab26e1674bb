/**
The bytes that the digest of a manifest covers: the payload as compact JSON with
sorted keys.
*/
module ManifestEncoding {
  import opened Wrappers
  import opened Ordering
  import opened Json
  import opened ManifestModel
  import ManifestTheorems

  // ----- The document -----

  function IdText(id: Id): string {
    match id
    case Conformance(suite) => "casa1-conformance:" + suite
    case Scenario(suite) => "casa1-scenario:" + suite
    case Differential(suite) => "windows-oracle:" + suite
  }

  function Each<T>(s: seq<T>, f: T -> Json): (j: Json)
    ensures j.List? && |j.items| == |s| && forall i | 0 <= i < |s| :: j.items[i] == f(s[i])
  {
    List(seq(|s|, i requires 0 <= i < |s| => f(s[i])))
  }

  function StringJson(s: string): Json {
    Text(s)
  }

  function Strings(s: seq<string>): Json {
    Each(s, StringJson)
  }

  function ConformanceJson(suite: string): Json {
    Text(IdText(Conformance(suite)))
  }

  function DifferentialJson(suite: string): Json {
    Text(IdText(Differential(suite)))
  }

  function ScenarioJson(suite: string): Json {
    Text(IdText(Scenario(suite)))
  }

  function DeclaredJson(d: Declared): Json {
    Object([
      Field("conformance", Each(d.conformance, ConformanceJson)),
      Field("differential", Each(d.differential, DifferentialJson)),
      Field("scenario", Each(d.scenario, ScenarioJson))])
  }

  function TargetJson(t: Target): Json {
    Object([
      Field("ignored", Strings(t.ignored)),
      Field("kind", Strings(t.kinds)),
      Field("name", Text(t.name)),
      Field("src_path", Text(t.path)),
      Field("tests", Strings(t.tests))])
  }

  function BindingJson(b: Binding): Json {
    Object([Field("target", Text(b.target)), Field("test", Text(b.test)), Field("via", Text(ViaText(b.via)))])
  }

  function ReasonJson(x: (Id, string)): Json {
    Object([Field("id", Text(IdText(x.0))), Field("reason", Text(x.1))])
  }

  function IdLeq(a: Id, b: Id): bool {
    StringLeq(IdText(a), IdText(b))
  }

  /** The elements of a set in some order. */
  ghost function Listed(s: set<Id>): (r: seq<Id>)
    ensures forall id :: id in r <==> id in s
    ensures Distinct(r)
  {
    if s == {} then [] else
      var x :| x in s;
      [x] + Listed(s - {x})
  }

  ghost function SortedIds(s: set<Id>): (r: seq<Id>)
    ensures forall id :: id in r <==> id in s
  {
    var r := Sort(IdLeq, Listed(s));
    assert forall id :: id in r <==> id in multiset(r);
    r
  }

  ghost function BindingFields(m: map<Id, seq<Binding>>): (r: seq<Field>)
    ensures |r| == |SortedIds(m.Keys)|
    ensures forall i | 0 <= i < |r| ::
              var id := SortedIds(m.Keys)[i];
              id in m && r[i] == Field(IdText(id), Each(m[id], BindingJson))
  {
    var ids := SortedIds(m.Keys);
    seq(|ids|, i requires 0 <= i < |ids| => assert ids[i] in ids; Field(IdText(ids[i]), Each(m[ids[i]], BindingJson)))
  }

  ghost function PayloadJson(p: Payload): Json {
    Object([
      Field("bindings", Object(BindingFields(p.bindings))),
      Field("commit", Text(p.commit)),
      Field("declared", DeclaredJson(p.declared)),
      Field("deferred_differential", Each(p.deferred, ReasonJson)),
      Field("kind", Text(p.kind)),
      Field("schema_version", Number(p.schema)),
      Field("targets", Each(p.targets, TargetJson)),
      Field("tree", Text(p.tree)),
      Field("unbound", Each(p.unbound, ReasonJson))])
  }

  /** The hashed text. */
  ghost function Encoded(p: Payload): string {
    Printed(PayloadJson(p))
  }

  ghost function Hashed(hash: string -> string): Digest {
    (p: Payload) => hash(Encoded(p))
  }

  // ----- The document determines the payload -----

  ghost predicate Injective<T(!new)>(f: T -> Json) {
    forall a, b | f(a) == f(b) :: a == b
  }

  lemma EachInjective<T(!new)>(s: seq<T>, t: seq<T>, f: T -> Json)
    requires Injective(f) && Each(s, f) == Each(t, f)
    ensures s == t
  {
    forall i | 0 <= i < |s|
      ensures s[i] == t[i]
    {
      assert Each(s, f).items[i] == Each(t, f).items[i];
    }
  }

  lemma IdTextInjective(a: Id, b: Id)
    requires IdText(a) == IdText(b)
    ensures a == b
  {
    var s, t := IdText(a), IdText(b);
    assert s[0] == t[0] && s[6] == t[6];
    if a.Conformance? {
      SameRest("casa1-conformance:", a.suite, b.suite);
    } else if a.Scenario? {
      SameRest("casa1-scenario:", a.suite, b.suite);
    } else {
      SameRest("windows-oracle:", a.suite, b.suite);
    }
  }

  lemma StringsInjective(s: seq<string>, t: seq<string>)
    requires Strings(s) == Strings(t)
    ensures s == t
  {
    EachInjective(s, t, StringJson);
  }

  lemma SuitesInjective()
    ensures Injective(ConformanceJson) && Injective(DifferentialJson) && Injective(ScenarioJson)
  {
    hide IdText;
    forall a, b | ConformanceJson(a) == ConformanceJson(b)
      ensures a == b
    {
      IdTextInjective(Conformance(a), Conformance(b));
    }
    forall a, b | DifferentialJson(a) == DifferentialJson(b)
      ensures a == b
    {
      IdTextInjective(Differential(a), Differential(b));
    }
    forall a, b | ScenarioJson(a) == ScenarioJson(b)
      ensures a == b
    {
      IdTextInjective(Scenario(a), Scenario(b));
    }
  }

  lemma DeclaredInjective(a: Declared, b: Declared)
    requires DeclaredJson(a) == DeclaredJson(b)
    ensures a == b
  {
    hide Each, ConformanceJson, DifferentialJson, ScenarioJson;
    var s, t := DeclaredJson(a).fields, DeclaredJson(b).fields;
    assert s[0] == t[0] && s[1] == t[1] && s[2] == t[2];
    SuitesInjective();
    EachInjective(a.conformance, b.conformance, ConformanceJson);
    EachInjective(a.differential, b.differential, DifferentialJson);
    EachInjective(a.scenario, b.scenario, ScenarioJson);
  }

  lemma TargetInjective(a: Target, b: Target)
    requires TargetJson(a) == TargetJson(b)
    ensures a == b
  {
    hide Strings;
    var s, t := TargetJson(a).fields, TargetJson(b).fields;
    assert s[0] == t[0] && s[1] == t[1] && s[2] == t[2] && s[3] == t[3] && s[4] == t[4];
    StringsInjective(a.ignored, b.ignored);
    StringsInjective(a.kinds, b.kinds);
    StringsInjective(a.tests, b.tests);
  }

  lemma BindingInjective(a: Binding, b: Binding)
    requires BindingJson(a) == BindingJson(b)
    ensures a == b
  {
    var s, t := BindingJson(a).fields, BindingJson(b).fields;
    assert s[0] == t[0] && s[1] == t[1] && s[2] == t[2];
    assert |ViaText(a.via)| == |ViaText(b.via)|;
  }

  lemma ReasonInjective(a: (Id, string), b: (Id, string))
    requires ReasonJson(a) == ReasonJson(b)
    ensures a == b
  {
    hide IdText;
    var s, t := ReasonJson(a).fields, ReasonJson(b).fields;
    assert s[0] == t[0] && s[1] == t[1];
    IdTextInjective(a.0, b.0);
  }

  lemma PartsInjective()
    ensures Injective(TargetJson) && Injective(BindingJson) && Injective(ReasonJson)
  {
    hide TargetJson, BindingJson, ReasonJson;
    forall a, b | TargetJson(a) == TargetJson(b)
      ensures a == b
    {
      TargetInjective(a, b);
    }
    forall a, b | BindingJson(a) == BindingJson(b)
      ensures a == b
    {
      BindingInjective(a, b);
    }
    forall a, b | ReasonJson(a) == ReasonJson(b)
      ensures a == b
    {
      ReasonInjective(a, b);
    }
  }

  /** Equal fields list the same ids, with the same bindings. */
  lemma BindingsInjective(m: map<Id, seq<Binding>>, n: map<Id, seq<Binding>>)
    requires BindingFields(m) == BindingFields(n)
    ensures m == n
  {
    hide IdText, BindingJson, SortedIds, Each, BindingFields, Injective;
    BindingsIncluded(m, n);
    BindingsIncluded(n, m);
  }

  lemma BindingsIncluded(m: map<Id, seq<Binding>>, n: map<Id, seq<Binding>>)
    requires BindingFields(m) == BindingFields(n)
    ensures forall id | id in m :: id in n && m[id] == n[id]
  {
    hide IdText, BindingJson, SortedIds, Each, BindingFields, Injective;
    var a, b := SortedIds(m.Keys), SortedIds(n.Keys);
    forall id | id in m
      ensures id in n && m[id] == n[id]
    {
      assert id in a;
      var i :| 0 <= i < |a| && a[i] == id;
      assert BindingFields(m)[i] == BindingFields(n)[i];
      IdTextInjective(a[i], b[i]);
      PartsInjective();
      EachInjective(m[id], n[id], BindingJson);
    }
  }

  lemma PayloadInjective(p: Payload, q: Payload)
    requires PayloadJson(p) == PayloadJson(q)
    ensures p == q
  {
    hide Each, DeclaredJson, TargetJson, ReasonJson, BindingFields, Injective;
    var s, t := PayloadJson(p).fields, PayloadJson(q).fields;
    assert s[0] == t[0] && s[1] == t[1] && s[2] == t[2] && s[3] == t[3] && s[4] == t[4];
    assert s[5] == t[5] && s[6] == t[6] && s[7] == t[7] && s[8] == t[8];
    PartsInjective();
    BindingsInjective(p.bindings, q.bindings);
    DeclaredInjective(p.declared, q.declared);
    EachInjective(p.deferred, q.deferred, ReasonJson);
    EachInjective(p.targets, q.targets, TargetJson);
    EachInjective(p.unbound, q.unbound, ReasonJson);
  }

  /** Different payloads have different hashed texts. */
  lemma EncodingInjective(p: Payload, q: Payload)
    requires Encoded(p) == Encoded(q)
    ensures p == q
  {
    hide PayloadJson, Printed;
    assert Encoded(p) + [] == Printed(PayloadJson(p)) + [] == Printed(PayloadJson(q)) + [];
    PrintedInjective(PayloadJson(p), [], PayloadJson(q), []);
    PayloadInjective(p, q);
  }

  /** Two accepted manifests with one digest have one payload, or their texts are a collision of the hash. */
  lemma DigestCoversPayload(c: Context, e: Context, hash: string -> string, head: Option<(string, string)>,
                            next: Option<(string, string)>, a: Document, b: Document)
    requires Verify(c, Hashed(hash), head, a) == {} && Verify(e, Hashed(hash), next, b) == {} && a.digest == b.digest
    ensures a.payload == b.payload ||
            (Encoded(a.payload) != Encoded(b.payload) && hash(Encoded(a.payload)) == hash(Encoded(b.payload)))
  {
    hide TargetErrors, CoverageErrors, DeferredErrors, RequiredErrors, BindingsErrors, HeadErrors, Encoded;
    assert DigestMismatch in Flag(true, DigestMismatch);
    if Encoded(a.payload) == Encoded(b.payload) {
      EncodingInjective(a.payload, b.payload);
    }
  }

  // ----- The text is canonical -----

  lemma IdOrder()
    ensures TotalPreorder(IdLeq)
  {
    hide StringLeq, IdText;
    forall a, b
      ensures IdLeq(a, b) || IdLeq(b, a)
    {
      StringTotal(IdText(a), IdText(b));
    }
    forall a, b, c | IdLeq(a, b) && IdLeq(b, c)
      ensures IdLeq(a, c)
    {
      StringTransitive(IdText(a), IdText(b), IdText(c));
    }
  }

  lemma IdsAscend(s: set<Id>)
    ensures var ids := SortedIds(s); forall i | 0 < i < |ids| :: Before(IdText(ids[i - 1]), IdText(ids[i]))
  {
    hide StringLeq, IdText, Sort, Listed, Distinct;
    IdOrder();
    SortOrders(IdLeq, Listed(s));
    var ids := SortedIds(s);
    ManifestTheorems.DistinctCounts(Listed(s));
    ManifestTheorems.DistinctCounts(ids);
    forall i | 0 < i < |ids|
      ensures Before(IdText(ids[i - 1]), IdText(ids[i]))
    {
      assert IdLeq(ids[i - 1], ids[i]);
      DistinctAt(ids, i - 1, i);
      if IdText(ids[i - 1]) == IdText(ids[i]) {
        IdTextInjective(ids[i - 1], ids[i]);
      }
    }
  }

  lemma DistinctAt(ids: seq<Id>, i: nat, j: nat)
    requires Distinct(ids) && i < j < |ids|
    ensures ids[i] != ids[j]
  {
  }

  ghost predicate AllAscend<T(!new)>(f: T -> Json) {
    forall x :: Ascending(f(x))
  }

  lemma EachAscends<T(!new)>(s: seq<T>, f: T -> Json)
    requires AllAscend(f)
    ensures Ascending(Each(s, f))
  {
  }

  lemma {:induction false} FirstDifference(a: string, b: string, k: nat)
    requires k < |a| && k < |b| && a[k] < b[k] && forall i | 0 <= i < k :: a[i] == b[i]
    ensures Before(a, b)
    decreases k
  {
    if k > 0 {
      FirstDifference(a[1..], b[1..], k - 1);
    }
  }

  lemma DeclaredAscends(d: Declared)
    ensures Ascending(DeclaredJson(d))
  {
    hide StringLeq, IdText;
    FirstDifference("conformance", "differential", 0);
    FirstDifference("differential", "scenario", 0);
    EachAscends(d.conformance, ConformanceJson);
    EachAscends(d.differential, DifferentialJson);
    EachAscends(d.scenario, ScenarioJson);
  }

  lemma TargetAscends(t: Target)
    ensures Ascending(TargetJson(t))
  {
    hide StringLeq;
    FirstDifference("ignored", "kind", 0);
    FirstDifference("kind", "name", 0);
    FirstDifference("name", "src_path", 0);
    FirstDifference("src_path", "tests", 0);
    EachAscends(t.ignored, StringJson);
    EachAscends(t.kinds, StringJson);
    EachAscends(t.tests, StringJson);
  }

  lemma BindingAscends(b: Binding)
    ensures Ascending(BindingJson(b))
  {
    hide StringLeq;
    FirstDifference("target", "test", 1);
    FirstDifference("test", "via", 0);
  }

  lemma ReasonAscends(x: (Id, string))
    ensures Ascending(ReasonJson(x))
  {
    hide StringLeq, IdText;
    FirstDifference("id", "reason", 0);
  }

  lemma PartsAscend()
    ensures AllAscend(TargetJson) && AllAscend(BindingJson) && AllAscend(ReasonJson)
  {
    hide TargetJson, BindingJson, ReasonJson, Ascending;
    forall t ensures Ascending(TargetJson(t)) { TargetAscends(t); }
    forall b ensures Ascending(BindingJson(b)) { BindingAscends(b); }
    forall x ensures Ascending(ReasonJson(x)) { ReasonAscends(x); }
  }

  lemma BindingsAscend(m: map<Id, seq<Binding>>)
    ensures Ascending(Object(BindingFields(m)))
  {
    hide StringLeq, IdText, BindingJson, SortedIds, Each, BindingFields, AllAscend, Before;
    PartsAscend();
    IdsAscend(m.Keys);
    var fields := BindingFields(m);
    forall i | 0 <= i < |fields|
      ensures Ascending(fields[i].value)
    {
      EachAscends(m[SortedIds(m.Keys)[i]], BindingJson);
    }
  }

  lemma PayloadKeys()
    ensures Before("bindings", "commit") && Before("commit", "declared") && Before("declared", "deferred_differential")
    ensures Before("deferred_differential", "kind") && Before("kind", "schema_version")
    ensures Before("schema_version", "targets") && Before("targets", "tree") && Before("tree", "unbound")
  {
    hide Before;
    FirstDifference("bindings", "commit", 0);
    FirstDifference("commit", "declared", 0);
    FirstDifference("declared", "deferred_differential", 2);
    FirstDifference("deferred_differential", "kind", 0);
    FirstDifference("kind", "schema_version", 0);
    FirstDifference("schema_version", "targets", 0);
    FirstDifference("targets", "tree", 1);
    FirstDifference("tree", "unbound", 0);
  }

  lemma FieldsAscend(a: Field, b: Field, c: Field, d: Field, e: Field, f: Field, g: Field, h: Field, i: Field)
    requires Before(a.key, b.key) && Before(b.key, c.key) && Before(c.key, d.key) && Before(d.key, e.key)
    requires Before(e.key, f.key) && Before(f.key, g.key) && Before(g.key, h.key) && Before(h.key, i.key)
    requires Ascending(a.value) && Ascending(b.value) && Ascending(c.value) && Ascending(d.value) && Ascending(e.value)
    requires Ascending(f.value) && Ascending(g.value) && Ascending(h.value) && Ascending(i.value)
    ensures Ascending(Object([a, b, c, d, e, f, g, h, i]))
  {
    hide Before;
  }

  lemma LeafAscends(s: string, n: int)
    ensures Ascending(Text(s)) && Ascending(Number(n))
  {
  }

  /** Every object of the document has its keys sorted, and the text is printable ASCII. */
  lemma EncodingCanonical(p: Payload)
    ensures Ascending(PayloadJson(p)) && Plain(Encoded(p))
  {
    hide Before, Ascending, Each, BindingFields, DeclaredJson, TargetJson, ReasonJson, AllAscend, Printed, Plain;
    PayloadKeys();
    PartsAscend();
    BindingsAscend(p.bindings);
    DeclaredAscends(p.declared);
    EachAscends(p.deferred, ReasonJson);
    EachAscends(p.targets, TargetJson);
    EachAscends(p.unbound, ReasonJson);
    LeafAscends(p.commit, p.schema);
    LeafAscends(p.kind, p.schema);
    LeafAscends(p.tree, p.schema);
    var s := PayloadJson(p).fields;
    FieldsAscend(s[0], s[1], s[2], s[3], s[4], s[5], s[6], s[7], s[8]);
    assert s == [s[0], s[1], s[2], s[3], s[4], s[5], s[6], s[7], s[8]];
    PrintedIsPlain(PayloadJson(p));
  }
}
