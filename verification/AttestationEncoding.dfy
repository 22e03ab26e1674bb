/**
The canonical byte encodings behind an attestation quote, and the guest wire
form of a challenge. Strings are their UTF-8 bytes.
*/
module AttestationEncoding {
  import opened Wrappers
  import opened Bytes

  datatype Module = Module(path: seq<byte>, size: u64, sha256: Digest)

  datatype Measurement = Measurement(buildId: seq<byte>, modules: seq<Module>, features: seq<seq<byte>>)

  /** 32 bytes: a nonce or a SHA-256 digest. */
  type Digest = d: seq<byte> | |d| == 32 witness Zeros(32)

  // ----- The encoding -----

  /** The length is cast to 32 bits, as the source does. */
  function Count(n: nat): (b: seq<byte>)
    ensures |b| == 4
  {
    Bytes32(n % TWO_32)
  }

  function Prefixed(b: seq<byte>): seq<byte> {
    Count(|b|) + b
  }

  function ModuleBytes(m: Module): seq<byte> {
    Prefixed(m.path) + Bytes64(m.size) + m.sha256
  }

  function ModulesBytes(ms: seq<Module>): seq<byte> {
    if ms == [] then [] else ModuleBytes(ms[0]) + ModulesBytes(ms[1..])
  }

  function FeaturesBytes(fs: seq<seq<byte>>): seq<byte> {
    if fs == [] then [] else Prefixed(fs[0]) + FeaturesBytes(fs[1..])
  }

  function Canonical(m: Measurement): seq<byte> {
    Prefixed(m.buildId) + Count(|m.modules|) + ModulesBytes(m.modules) + Count(|m.features|) +
    FeaturesBytes(m.features)
  }

  /** The buffer loops of `canonical_measurement`. */
  method CanonicalMeasurement(m: Measurement) returns (out: seq<byte>)
    ensures out == Canonical(m)
  {
    hide Count, Prefixed, ModuleBytes;
    out := Prefixed(m.buildId);
    out := out + Count(|m.modules|);
    ghost var start := out;
    for i := 0 to |m.modules|
      invariant out == start + ModulesBytes(m.modules[..i])
    {
      ModulesSnoc(m.modules[..i], m.modules[i]);
      assert m.modules[..i + 1] == m.modules[..i] + [m.modules[i]];
      out := out + ModuleBytes(m.modules[i]);
    }
    assert m.modules[..|m.modules|] == m.modules;
    out := out + Count(|m.features|);
    start := out;
    for i := 0 to |m.features|
      invariant out == start + FeaturesBytes(m.features[..i])
    {
      FeaturesSnoc(m.features[..i], m.features[i]);
      assert m.features[..i + 1] == m.features[..i] + [m.features[i]];
      out := out + Prefixed(m.features[i]);
    }
    assert m.features[..|m.features|] == m.features;
  }

  lemma {:induction false} ModulesSnoc(ms: seq<Module>, m: Module)
    ensures ModulesBytes(ms + [m]) == ModulesBytes(ms) + ModuleBytes(m)
  {
    hide ModuleBytes;
    if ms == [] {
      assert [m][1..] == [] && ms + [m] == [m];
      assert ModuleBytes(m) + [] == ModuleBytes(m);
    } else {
      assert (ms + [m])[1..] == ms[1..] + [m];
      ModulesSnoc(ms[1..], m);
    }
  }

  lemma {:induction false} FeaturesSnoc(fs: seq<seq<byte>>, f: seq<byte>)
    ensures FeaturesBytes(fs + [f]) == FeaturesBytes(fs) + Prefixed(f)
  {
    hide Prefixed;
    if fs == [] {
      assert [f][1..] == [] && fs + [f] == [f];
      assert Prefixed(f) + [] == Prefixed(f);
    } else {
      assert (fs + [f])[1..] == fs[1..] + [f];
      FeaturesSnoc(fs[1..], f);
    }
  }

  // ----- The encoding is injective -----

  /** Every component is shorter than a bound. */
  predicate Within(m: Measurement, bound: nat) {
    && |m.buildId| < bound && |m.modules| < bound && |m.features| < bound
    && (forall i | 0 <= i < |m.modules| :: |m.modules[i].path| < bound)
    && (forall i | 0 <= i < |m.features| :: |m.features[i]| < bound)
  }

  predicate Sized(m: Measurement) {
    Within(m, TWO_32)
  }

  /** Two concatenations with first parts of one length split the same way. */
  lemma SplitEqual<T>(a: seq<T>, x: seq<T>, b: seq<T>, y: seq<T>)
    requires a + x == b + y && |a| == |b|
    ensures a == b && x == y
  {
    assert a == (a + x)[..|a|] && b == (b + y)[..|b|];
    assert x == (a + x)[|a|..] && y == (b + y)[|b|..];
  }

  lemma CountInjective(m: nat, x: seq<byte>, n: nat, y: seq<byte>)
    requires m < TWO_32 && n < TWO_32 && Count(m) + x == Count(n) + y
    ensures m == n && x == y
  {
    hide Bytes32, Le32;
    SplitEqual(Count(m), x, Count(n), y);
    var c := Count(m);
    assert c == Bytes32(m) && c == Bytes32(n) && c[0..4] == c;
    ReadBack32(c, 0, m);
    ReadBack32(c, 0, n);
  }

  lemma PrefixedInjective(a: seq<byte>, x: seq<byte>, b: seq<byte>, y: seq<byte>)
    requires |a| < TWO_32 && |b| < TWO_32 && Prefixed(a) + x == Prefixed(b) + y
    ensures a == b && x == y
  {
    hide Count;
    assert Prefixed(a) + x == Count(|a|) + (a + x) && Prefixed(b) + y == Count(|b|) + (b + y);
    CountInjective(|a|, a + x, |b|, b + y);
    SplitEqual(a, x, b, y);
  }

  lemma ModuleInjective(m: Module, x: seq<byte>, n: Module, y: seq<byte>)
    requires |m.path| < TWO_32 && |n.path| < TWO_32 && ModuleBytes(m) + x == ModuleBytes(n) + y
    ensures m == n && x == y
  {
    hide Prefixed;
    var restM, restN := Bytes64(m.size) + (m.sha256 + x), Bytes64(n.size) + (n.sha256 + y);
    assert ModuleBytes(m) + x == Prefixed(m.path) + restM && ModuleBytes(n) + y == Prefixed(n.path) + restN;
    PrefixedInjective(m.path, restM, n.path, restN);
    SplitEqual(Bytes64(m.size), m.sha256 + x, Bytes64(n.size), n.sha256 + y);
    SplitEqual(m.sha256, x, n.sha256, y);
    ReadBack64(Bytes64(m.size), 0, m.size);
    ReadBack64(Bytes64(n.size), 0, n.size);
  }

  lemma {:induction false} ModulesInjective(ms: seq<Module>, x: seq<byte>, ns: seq<Module>, y: seq<byte>)
    requires |ms| == |ns| && ModulesBytes(ms) + x == ModulesBytes(ns) + y
    requires forall i | 0 <= i < |ms| :: |ms[i].path| < TWO_32 && |ns[i].path| < TWO_32
    ensures ms == ns && x == y
  {
    hide ModuleBytes;
    if ms == [] {
      assert ModulesBytes(ms) + x == x && ModulesBytes(ns) + y == y;
    } else {
      var restM, restN := ModulesBytes(ms[1..]) + x, ModulesBytes(ns[1..]) + y;
      assert ModulesBytes(ms) + x == ModuleBytes(ms[0]) + restM;
      assert ModulesBytes(ns) + y == ModuleBytes(ns[0]) + restN;
      ModuleInjective(ms[0], restM, ns[0], restN);
      ModulesInjective(ms[1..], x, ns[1..], y);
      assert ms == [ms[0]] + ms[1..] && ns == [ns[0]] + ns[1..];
    }
  }

  lemma {:induction false} FeaturesInjective(fs: seq<seq<byte>>, x: seq<byte>, gs: seq<seq<byte>>, y: seq<byte>)
    requires |fs| == |gs| && FeaturesBytes(fs) + x == FeaturesBytes(gs) + y
    requires forall i | 0 <= i < |fs| :: |fs[i]| < TWO_32 && |gs[i]| < TWO_32
    ensures fs == gs && x == y
  {
    hide Prefixed;
    if fs == [] {
      assert FeaturesBytes(fs) + x == x && FeaturesBytes(gs) + y == y;
    } else {
      var restF, restG := FeaturesBytes(fs[1..]) + x, FeaturesBytes(gs[1..]) + y;
      assert FeaturesBytes(fs) + x == Prefixed(fs[0]) + restF;
      assert FeaturesBytes(gs) + y == Prefixed(gs[0]) + restG;
      PrefixedInjective(fs[0], restF, gs[0], restG);
      FeaturesInjective(fs[1..], x, gs[1..], y);
      assert fs == [fs[0]] + fs[1..] && gs == [gs[0]] + gs[1..];
    }
  }

  /** Different measurements have different encodings, whatever follows them. */
  lemma CanonicalInjective(m: Measurement, x: seq<byte>, n: Measurement, y: seq<byte>)
    requires Sized(m) && Sized(n) && Canonical(m) + x == Canonical(n) + y
    ensures m == n && x == y
  {
    hide Count, Prefixed, ModulesBytes, FeaturesBytes;
    var m3, n3 := FeaturesBytes(m.features) + x, FeaturesBytes(n.features) + y;
    var m2, n2 := Count(|m.features|) + m3, Count(|n.features|) + n3;
    var m1, n1 := ModulesBytes(m.modules) + m2, ModulesBytes(n.modules) + n2;
    var m0, n0 := Count(|m.modules|) + m1, Count(|n.modules|) + n1;
    assert Canonical(m) + x == Prefixed(m.buildId) + m0;
    assert Canonical(n) + y == Prefixed(n.buildId) + n0;
    PrefixedInjective(m.buildId, m0, n.buildId, n0);
    CountInjective(|m.modules|, m1, |n.modules|, n1);
    ModulesInjective(m.modules, m2, n.modules, n2);
    CountInjective(|m.features|, m3, |n.features|, n3);
    FeaturesInjective(m.features, x, n.features, y);
  }

  // ----- And only within the bounds -----

  predicate Continues(b: byte) {
    0x80 <= b < 0xC0
  }

  /** The length of the UTF-8 sequence at the front (table 3-7 of the Unicode standard); 0 where there is none. */
  function Sequence(b: seq<byte>): (n: nat)
    ensures n <= |b|
  {
    if b == [] then 0
    else if b[0] < 0x80 then 1
    else if |b| >= 2 && 0xC2 <= b[0] < 0xE0 && Continues(b[1]) then 2
    else if |b| >= 3 && 0xE0 <= b[0] < 0xF0 && Continues(b[1]) && Continues(b[2]) &&
            (b[0] == 0xE0 ==> b[1] >= 0xA0) && (b[0] == 0xED ==> b[1] < 0xA0) then 3
    else if |b| >= 4 && 0xF0 <= b[0] < 0xF5 && Continues(b[1]) && Continues(b[2]) && Continues(b[3]) &&
            (b[0] == 0xF0 ==> b[1] >= 0x90) && (b[0] == 0xF4 ==> b[1] < 0x90) then 4
    else 0
  }

  /** The bytes of a string. */
  predicate Utf8(b: seq<byte>)
    decreases |b|
  {
    b == [] || (Sequence(b) > 0 && Utf8(b[Sequence(b)..]))
  }

  predicate Ascii(b: seq<byte>) {
    forall i | 0 <= i < |b| :: b[i] < 0x80
  }

  lemma {:induction false} AsciiIsUtf8(b: seq<byte>)
    requires Ascii(b)
    ensures Utf8(b)
    decreases |b|
  {
    if b != [] {
      AsciiIsUtf8(b[1..]);
    }
  }

  /** Measurements as the source has them: the build id, paths and features are strings. */
  predicate OfStrings(m: Measurement) {
    && Utf8(m.buildId)
    && (forall i | 0 <= i < |m.modules| :: Utf8(m.modules[i].path))
    && (forall i | 0 <= i < |m.features| :: Utf8(m.features[i]))
  }

  const LONG: nat := 0x7F7F_7F7A
  const SHORT: nat := 0x0101_0100

  /** Three features in the bytes of a build id; the last lacks the eight bytes that follow a build id. */
  function HiddenFeatures(long: seq<byte>, short: seq<byte>): seq<byte> {
    Count(0) + Count(3) + (Count(LONG) + long) + (Count(LONG) + long) + (Count(SHORT) + short)
  }

  /** A build id of 2^32 bytes hides three features: its truncated length makes the rest of it readable as fields. */
  lemma TruncationCollides() returns (m: Measurement, n: Measurement)
    ensures m != n && Canonical(m) == Canonical(n)
    ensures |m.buildId| == TWO_32 && m.modules == [] && m.features == [] && Sized(n)
    ensures OfStrings(m) && OfStrings(n)
  {
    var long, short := Zeros(LONG), Zeros(SHORT - 8);
    var last := short + Count(0) + Count(0);
    m := Measurement(HiddenFeatures(long, short), [], []);
    n := Measurement([], [], [long, long, last]);
    HiddenLength(long, short);
    HiddenStrings(long, short);
    Collision(long, short);
  }

  lemma HiddenLength(long: seq<byte>, short: seq<byte>)
    requires |long| == LONG && |short| == SHORT - 8
    ensures |HiddenFeatures(long, short)| == TWO_32 && |short + Count(0) + Count(0)| == SHORT
  {
    hide Count;
  }

  lemma HiddenStrings(long: seq<byte>, short: seq<byte>)
    requires Ascii(long) && Ascii(short)
    ensures Utf8(HiddenFeatures(long, short)) && Utf8(long) && Utf8(short + Count(0) + Count(0))
  {
    hide Count, Utf8;
    CountsAreAscii();
    AsciiIsUtf8(HiddenFeatures(long, short));
    AsciiIsUtf8(long);
    AsciiIsUtf8(short + Count(0) + Count(0));
  }

  lemma Collision(long: seq<byte>, short: seq<byte>)
    requires |long| == LONG && |short| == SHORT - 8
    ensures Canonical(Measurement(HiddenFeatures(long, short), [], [])) ==
            Canonical(Measurement([], [], [long, long, short + Count(0) + Count(0)]))
  {
    hide Count, FeaturesBytes, ModulesBytes;
    CountsAreAscii();
    HiddenLength(long, short);
    ThreeFeatures(long, short + Count(0) + Count(0));
    SameBytes(Count(0), Count(3), Count(LONG) + long, Count(SHORT), short);
  }

  lemma CountsAreAscii()
    ensures Count(TWO_32) == Count(0)
    ensures Ascii(Count(0)) && Ascii(Count(3)) && Ascii(Count(LONG)) && Ascii(Count(SHORT))
  {
    assert TWO_32 % TWO_32 == 0;
  }

  lemma SameBytes(zero: seq<byte>, three: seq<byte>, long: seq<byte>, count: seq<byte>, short: seq<byte>)
    ensures zero + (zero + three + long + long + (count + short)) + zero + [] + zero + [] ==
            (zero + []) + zero + [] + three + (long + (long + (count + (short + zero + zero))))
  {
  }

  lemma ThreeFeatures(f: seq<byte>, g: seq<byte>)
    ensures ModulesBytes([]) == [] && FeaturesBytes([]) == []
    ensures FeaturesBytes([f, f, g]) == Prefixed(f) + (Prefixed(f) + Prefixed(g))
  {
    hide Prefixed;
    assert [f, f, g][1..] == [f, g] && [f, g][1..] == [g] && [g][1..] == [];
    assert FeaturesBytes([g]) == Prefixed(g) + [] == Prefixed(g);
    assert FeaturesBytes([f, g]) == Prefixed(f) + FeaturesBytes([g]);
  }

  /** Strings below a bound determine their encoding if and only if the bound is at most 2^32. */
  lemma InjectiveExactly(bound: nat)
    ensures (forall m, n | OfStrings(m) && Within(m, bound) && OfStrings(n) && Within(n, bound) &&
                           Canonical(m) == Canonical(n) :: m == n) <==> bound <= TWO_32
  {
    hide Canonical, OfStrings;
    if bound <= TWO_32 {
      forall m, n | OfStrings(m) && Within(m, bound) && OfStrings(n) && Within(n, bound) && Canonical(m) == Canonical(n)
        ensures m == n
      {
        assert Canonical(m) + [] == Canonical(n) + [];
        CanonicalInjective(m, [], n, []);
      }
    } else {
      var m, n := TruncationCollides();
      assert Within(m, bound) && Within(n, bound);
    }
  }

  // ----- The signed message -----

  /** The domain tag "casa1-attest-v1". */
  const TAG: seq<byte> := [99, 97, 115, 97, 49, 45, 97, 116, 116, 101, 115, 116, 45, 118, 49]

  function Message(provider: seq<byte>, nonce: Digest, digest: Digest): seq<byte> {
    TAG + Prefixed(provider) + nonce + digest
  }

  /** A signed message names one provider, one nonce and one digest. */
  lemma MessageInjective(p: seq<byte>, n: Digest, d: Digest, q: seq<byte>, o: Digest, e: Digest)
    requires Message(p, n, d) == Message(q, o, e)
    ensures p == q && n == o && d == e
  {
    hide Count;
    assert Message(p, n, d) == TAG + (Count(|p|) + (p + (n + d)));
    assert Message(q, o, e) == TAG + (Count(|q|) + (q + (o + e)));
    SplitEqual(TAG, Count(|p|) + (p + (n + d)), TAG, Count(|q|) + (q + (o + e)));
    SplitEqual(Count(|p|), p + (n + d), Count(|q|), q + (o + e));
    SplitEqual(p, n + d, q, o + e);
    SplitEqual(n, d, o, e);
  }

  // ----- Challenges on the wire -----

  datatype Challenge = Challenge(nonce: Digest, issuedAt: u64, ttl: u64, verifier: seq<byte>)

  /** The verifier identity "casa1-guest". */
  const VERIFIER: seq<byte> := [99, 97, 115, 97, 49, 45, 103, 117, 101, 115, 116]

  predicate WellFormed(c: Challenge) {
    !AllZero(c.nonce) && c.ttl > 0 && c.verifier != []
  }

  predicate Expired(c: Challenge, now: u64) {
    (if now >= c.issuedAt then now - c.issuedAt else 0) > c.ttl
  }

  function ToWire(c: Challenge): (b: seq<byte>)
    ensures |b| == 48
  {
    c.nonce + Bytes64(c.issuedAt) + Bytes64(c.ttl)
  }

  /** `None` is the malformed-challenge error. */
  function FromWire(b: seq<byte>): Option<Challenge> {
    if |b| < 48 then None
    else
      var c := Challenge(b[..32], Le64(b, 32), Le64(b, 40), VERIFIER);
      if WellFormed(c) then Some(c) else None
  }

  /** The wire carries everything but the verifier; a malformed challenge does not come back. */
  lemma WireRoundTrip(c: Challenge, trailing: seq<byte>)
    ensures FromWire(ToWire(c) + trailing) ==
            if WellFormed(c.(verifier := VERIFIER)) then Some(c.(verifier := VERIFIER)) else None
  {
    var b := ToWire(c) + trailing;
    assert b[..32] == c.nonce && b[32..40] == Bytes64(c.issuedAt) && b[40..48] == Bytes64(c.ttl);
    ReadBack64(b, 32, c.issuedAt);
    ReadBack64(b, 40, c.ttl);
  }

  /** Whatever is accepted off the wire is written back byte for byte. */
  lemma WireExact(b: seq<byte>)
    requires FromWire(b).Some?
    ensures ToWire(FromWire(b).value) == b[..48]
  {
    WriteBack64(b, 32);
    WriteBack64(b, 40);
    hide Bytes64, Le64;
    assert b[..48] == b[..32] + b[32..40] + b[40..48];
  }
}
