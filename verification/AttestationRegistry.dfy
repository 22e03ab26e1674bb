/**
The attestation registry: enrolment, revocation and challenge/response
verification with replay protection.

SHA-256, ECDSA and the DER parsers are parameters (`Crypto`); what is assumed
of them is stated in each theorem that needs it.
*/
module AttestationRegistry {
  import opened Wrappers
  import opened Bytes
  import opened AttestationEncoding

  type Id = seq<byte>

  datatype Crypto = Crypto(
    sha256: seq<byte> -> Digest,
    parsesKey: seq<byte> -> bool,
    parsesSignature: seq<byte> -> bool,
    verifies: (seq<byte>, seq<byte>, seq<byte>) -> bool)

  datatype ProviderKey = ProviderKey(id: Id, spki: seq<byte>, registeredAt: u64, validUntil: Option<u64>)

  datatype Quote = Quote(provider: Id, measurement: Measurement, nonce: Digest, spki: seq<byte>, signature: seq<byte>)

  datatype Verified = Verified(provider: Id, measurement: Measurement, nonce: Digest)

  datatype Error =
    | NoProvider
    | UnknownProvider
    | DuplicateProvider
    | RevokedProvider
    | ProviderKeyExpired
    | KeyMismatch
    | MalformedChallenge
    | MalformedQuote
    | NonceMismatch
    | ChallengeReplayed
    | ChallengeExpired
    | InvalidSignature
    | MeasurementMismatch

  datatype Registry = Registry(providers: map<Id, ProviderKey>, revoked: set<Id>, consumed: set<Digest>)

  function DigestOf(c: Crypto, m: Measurement): Digest {
    c.sha256(Canonical(m))
  }

  function SignedMessage(c: Crypto, q: Quote): seq<byte> {
    Message(q.provider, q.nonce, DigestOf(c, q.measurement))
  }

  // ----- Operations -----

  function Register(r: Registry, key: ProviderKey): (Registry, Result<(), Error>) {
    if key.id in r.revoked then (r, Err(RevokedProvider))
    else if key.id in r.providers then (r, Err(DuplicateProvider))
    else (r.(providers := r.providers[key.id := key]), Ok(()))
  }

  function Revoke(r: Registry, id: Id): Registry {
    r.(revoked := r.revoked + {id})
  }

  /** The checks in source order; the first that fails names the error. */
  function Verdict(c: Crypto, r: Registry, q: Quote, ch: Challenge, expected: Option<Measurement>, now: u64)
    : Result<Verified, Error>
  {
    if r.providers == map[] && r.revoked == {} then Err(NoProvider)
    else if !WellFormed(ch) then Err(MalformedChallenge)
    else if q.provider in r.revoked then Err(RevokedProvider)
    else if q.provider !in r.providers then Err(UnknownProvider)
    else
      var key := r.providers[q.provider];
      if key.validUntil.Some? && now > key.validUntil.value then Err(ProviderKeyExpired)
      else if key.spki != q.spki then Err(KeyMismatch)
      else if q.nonce != ch.nonce then Err(NonceMismatch)
      else if ch.nonce in r.consumed then Err(ChallengeReplayed)
      else if Expired(ch, now) then Err(ChallengeExpired)
      else if q.signature == [] then Err(MalformedQuote)
      else if !c.parsesKey(key.spki) || !c.parsesSignature(q.signature) then Err(MalformedQuote)
      else if !c.verifies(key.spki, SignedMessage(c, q), q.signature) then Err(InvalidSignature)
      else if expected.Some? && DigestOf(c, expected.value) != DigestOf(c, q.measurement) then Err(MeasurementMismatch)
      else Ok(Verified(q.provider, q.measurement, q.nonce))
  }

  function Verify(c: Crypto, r: Registry, q: Quote, ch: Challenge, expected: Option<Measurement>, now: u64)
    : (Registry, Result<Verified, Error>)
  {
    var verdict := Verdict(c, r, q, ch, expected, now);
    (if verdict.Ok? then r.(consumed := r.consumed + {ch.nonce}) else r, verdict)
  }

  /** The registry object. */
  class TrustStore {
    var providers: map<Id, ProviderKey>
    var revoked: set<Id>
    var consumed: set<Digest>

    ghost function Contents(): Registry
      reads this
    {
      Registry(providers, revoked, consumed)
    }

    constructor ()
      ensures Contents() == Registry(map[], {}, {})
    {
      providers, revoked, consumed := map[], {}, {};
    }

    method RegisterProvider(key: ProviderKey) returns (r: Result<(), Error>)
      modifies this`providers
      ensures (Contents(), r) == Register(old(Contents()), key)
    {
      if key.id in revoked {
        return Err(RevokedProvider);
      }
      if key.id in providers {
        return Err(DuplicateProvider);
      }
      providers := providers[key.id := key];
      return Ok(());
    }

    method RevokeProvider(id: Id) returns (existed: bool)
      modifies this`revoked
      ensures Contents() == Revoke(old(Contents()), id) && existed == (id in providers)
    {
      existed := id in providers;
      revoked := revoked + {id};
    }

    method VerifyQuote(c: Crypto, q: Quote, ch: Challenge, expected: Option<Measurement>, now: u64)
      returns (r: Result<Verified, Error>)
      modifies this`consumed
      ensures (Contents(), r) == Verify(c, old(Contents()), q, ch, expected, now)
    {
      hide WellFormed, Expired, SignedMessage, DigestOf;
      if providers == map[] && revoked == {} {
        return Err(NoProvider);
      }
      if !WellFormed(ch) {
        return Err(MalformedChallenge);
      }
      if q.provider in revoked {
        return Err(RevokedProvider);
      }
      if q.provider !in providers {
        return Err(UnknownProvider);
      }
      var key := providers[q.provider];
      if key.validUntil.Some? && now > key.validUntil.value {
        return Err(ProviderKeyExpired);
      }
      if key.spki != q.spki {
        return Err(KeyMismatch);
      }
      if q.nonce != ch.nonce {
        return Err(NonceMismatch);
      }
      if ch.nonce in consumed {
        return Err(ChallengeReplayed);
      }
      if Expired(ch, now) {
        return Err(ChallengeExpired);
      }
      if q.signature == [] {
        return Err(MalformedQuote);
      }
      if !c.parsesKey(key.spki) || !c.parsesSignature(q.signature) {
        return Err(MalformedQuote);
      }
      if !c.verifies(key.spki, SignedMessage(c, q), q.signature) {
        return Err(InvalidSignature);
      }
      if expected.Some? && DigestOf(c, expected.value) != DigestOf(c, q.measurement) {
        return Err(MeasurementMismatch);
      }
      consumed := consumed + {ch.nonce};
      return Ok(Verified(q.provider, q.measurement, q.nonce));
    }
  }

  // ----- Runs -----

  datatype Op =
    | Enrol(key: ProviderKey)
    | Withdraw(id: Id)
    | Attest(quote: Quote, challenge: Challenge, expected: Option<Measurement>, now: u64)

  function Step(c: Crypto, r: Registry, op: Op): Registry {
    match op
    case Enrol(key) => Register(r, key).0
    case Withdraw(id) => Revoke(r, id)
    case Attest(q, ch, expected, now) => Verify(c, r, q, ch, expected, now).0
  }

  function After(c: Crypto, r: Registry, ops: seq<Op>): Registry
    decreases |ops|
  {
    if ops == [] then r else After(c, Step(c, r, ops[0]), ops[1..])
  }

  /** The state in which operation `i` of a run is executed. */
  function Before(c: Crypto, r: Registry, ops: seq<Op>, i: nat): Registry
    requires i <= |ops|
  {
    After(c, r, ops[..i])
  }

  predicate Accepts(c: Crypto, r: Registry, op: Op) {
    op.Attest? && Verdict(c, r, op.quote, op.challenge, op.expected, op.now).Ok?
  }

  /** Nothing is ever forgotten: keys stay what they are, revocations and nonces accumulate. */
  predicate Grows(r: Registry, t: Registry) {
    && r.revoked <= t.revoked && r.consumed <= t.consumed
    && (forall id | id in r.providers :: id in t.providers && t.providers[id] == r.providers[id])
  }

  lemma StepGrows(c: Crypto, r: Registry, op: Op)
    ensures Grows(r, Step(c, r, op))
  {
    hide Verdict;
  }

  lemma {:induction false} AfterGrows(c: Crypto, r: Registry, ops: seq<Op>)
    ensures Grows(r, After(c, r, ops))
    decreases |ops|
  {
    hide Step;
    if ops != [] {
      StepGrows(c, r, ops[0]);
      AfterGrows(c, Step(c, r, ops[0]), ops[1..]);
    }
  }

  lemma {:induction false} AfterConcat(c: Crypto, r: Registry, a: seq<Op>, b: seq<Op>)
    ensures After(c, r, a + b) == After(c, After(c, r, a), b)
    decreases |a|
  {
    hide Step;
    if a == [] {
      assert a + b == b;
    } else {
      assert (a + b)[1..] == a[1..] + b;
      AfterConcat(c, Step(c, r, a[0]), a[1..], b);
    }
  }

  /** What operation `i` leaves behind is still there when operation `j` runs. */
  lemma Lasts(c: Crypto, r: Registry, ops: seq<Op>, i: nat, j: nat)
    requires i < j <= |ops|
    ensures Grows(Step(c, Before(c, r, ops, i), ops[i]), Before(c, r, ops, j))
  {
    hide Step;
    assert ops[..j] == ops[..i] + [ops[i]] + ops[i + 1..j];
    AfterConcat(c, r, ops[..i], [ops[i]]);
    AfterConcat(c, r, ops[..i] + [ops[i]], ops[i + 1..j]);
    assert [ops[i]][1..] == [];
    AfterGrows(c, Step(c, Before(c, r, ops, i), ops[i]), ops[i + 1..j]);
  }

  /** Over any run, each nonce is accepted at most once. */
  lemma NonceAcceptedOnce(c: Crypto, r: Registry, ops: seq<Op>, i: nat, j: nat)
    requires i < j < |ops|
    requires Accepts(c, Before(c, r, ops, i), ops[i]) && Accepts(c, Before(c, r, ops, j), ops[j])
    ensures ops[i].challenge.nonce != ops[j].challenge.nonce
  {
    hide After;
    Lasts(c, r, ops, i, j);
  }

  /** A revoked provider is never accepted again and never enrolled again. */
  lemma RevokedForGood(c: Crypto, r: Registry, ops: seq<Op>, i: nat, j: nat)
    requires i < j < |ops| && ops[i].Withdraw?
    ensures ops[j].Attest? && ops[j].quote.provider == ops[i].id ==> !Accepts(c, Before(c, r, ops, j), ops[j])
    ensures ops[j].Enrol? && ops[j].key.id == ops[i].id ==>
              Register(Before(c, r, ops, j), ops[j].key) == (Before(c, r, ops, j), Err(RevokedProvider))
  {
    hide After;
    Lasts(c, r, ops, i, j);
  }

  /** A registered key never changes. */
  lemma KeyNeverChanges(c: Crypto, r: Registry, ops: seq<Op>, i: nat, j: nat)
    requires i < j <= |ops| && ops[i].Enrol? && Register(Before(c, r, ops, i), ops[i].key).1.Ok?
    ensures ops[i].key.id in Before(c, r, ops, j).providers
    ensures Before(c, r, ops, j).providers[ops[i].key.id] == ops[i].key
  {
    hide After;
    Lasts(c, r, ops, i, j);
  }

  /** "Cannot attest" never recurs after the first enrolment or revocation. */
  lemma NoProviderNeverRecurs(c: Crypto, r: Registry, ops: seq<Op>, i: nat, j: nat)
    requires i < j < |ops| && (ops[i].Withdraw? || ops[i].Enrol?) && ops[j].Attest?
    ensures Verdict(c, Before(c, r, ops, j), ops[j].quote, ops[j].challenge, ops[j].expected, ops[j].now) !=
            Err(NoProvider)
  {
    Lasts(c, r, ops, i, j);
    hide After, SignedMessage, DigestOf;
    var s, t := Step(c, Before(c, r, ops, i), ops[i]), Before(c, r, ops, j);
    if ops[i].Withdraw? {
      assert ops[i].id in t.revoked;
    } else {
      assert ops[i].key.id in s.providers || ops[i].key.id in s.revoked;
    }
  }

  /** A rejected call changes nothing. */
  lemma RejectedChangesNothing(c: Crypto, r: Registry, op: Op)
    requires op.Enrol? ==> Register(r, op.key).1.Err?
    requires op.Attest? ==> !Accepts(c, r, op)
    requires !op.Withdraw?
    ensures Step(c, r, op) == r
  {
  }

  // ----- When a quote is accepted -----

  /** What the verifier demands, one by one. */
  datatype Check =
    | NonceNotZero | TtlNotZero | VerifierNamed | NotRevoked | Enrolled | KeyCurrent | KeyMatches | NonceMatches
    | NonceFresh | InTime | SignatureGiven | KeyParses | SignatureParses | SignatureValid | AsExpected

  /** Each demand in numbers; those of the registered key are demands only when there is one. */
  predicate Passes(c: Crypto, r: Registry, q: Quote, ch: Challenge, expected: Option<Measurement>, now: u64, k: Check) {
    match k
    case NonceNotZero => exists i | 0 <= i < 32 :: ch.nonce[i] != 0
    case TtlNotZero => ch.ttl > 0
    case VerifierNamed => |ch.verifier| > 0
    case NotRevoked => q.provider !in r.revoked
    case Enrolled => q.provider in r.providers
    case KeyCurrent =>
      q.provider in r.providers ==>
        var until := r.providers[q.provider].validUntil;
        until.None? || now <= until.value
    case KeyMatches => q.provider in r.providers ==> q.spki == r.providers[q.provider].spki
    case NonceMatches => q.nonce == ch.nonce
    case NonceFresh => ch.nonce !in r.consumed
    case InTime => now <= ch.issuedAt + ch.ttl
    case SignatureGiven => |q.signature| > 0
    case KeyParses => q.provider in r.providers ==> c.parsesKey(r.providers[q.provider].spki)
    case SignatureParses => c.parsesSignature(q.signature)
    case SignatureValid =>
      q.provider in r.providers ==>
        var digest := c.sha256(Canonical(q.measurement));
        c.verifies(r.providers[q.provider].spki, Message(q.provider, q.nonce, digest), q.signature)
    case AsExpected =>
      expected.Some? ==> c.sha256(Canonical(expected.value)) == c.sha256(Canonical(q.measurement))
  }

  function Named(k: Check): Error {
    match k
    case NonceNotZero => MalformedChallenge
    case TtlNotZero => MalformedChallenge
    case VerifierNamed => MalformedChallenge
    case NotRevoked => RevokedProvider
    case Enrolled => UnknownProvider
    case KeyCurrent => ProviderKeyExpired
    case KeyMatches => KeyMismatch
    case NonceMatches => NonceMismatch
    case NonceFresh => ChallengeReplayed
    case InTime => ChallengeExpired
    case SignatureGiven => MalformedQuote
    case KeyParses => MalformedQuote
    case SignatureParses => MalformedQuote
    case SignatureValid => InvalidSignature
    case AsExpected => MeasurementMismatch
  }

  lemma ChallengeChecks(c: Crypto, r: Registry, q: Quote, ch: Challenge, expected: Option<Measurement>, now: u64)
    ensures WellFormed(ch) <==> Passes(c, r, q, ch, expected, now, NonceNotZero) &&
                                Passes(c, r, q, ch, expected, now, TtlNotZero) &&
                                Passes(c, r, q, ch, expected, now, VerifierNamed)
    ensures !Expired(ch, now) <==> Passes(c, r, q, ch, expected, now, InTime)
    ensures ch.nonce !in r.consumed <==> Passes(c, r, q, ch, expected, now, NonceFresh)
    ensures q.nonce == ch.nonce <==> Passes(c, r, q, ch, expected, now, NonceMatches)
  {
  }

  lemma ProviderChecks(c: Crypto, r: Registry, q: Quote, ch: Challenge, expected: Option<Measurement>, now: u64)
    ensures q.provider !in r.revoked <==> Passes(c, r, q, ch, expected, now, NotRevoked)
    ensures q.provider in r.providers <==> Passes(c, r, q, ch, expected, now, Enrolled)
    ensures q.provider in r.providers ==>
              var key := r.providers[q.provider];
              && (key.validUntil.Some? && now > key.validUntil.value <==>
                  !Passes(c, r, q, ch, expected, now, KeyCurrent))
              && (key.spki == q.spki <==> Passes(c, r, q, ch, expected, now, KeyMatches))
              && (c.parsesKey(key.spki) <==> Passes(c, r, q, ch, expected, now, KeyParses))
              && (c.verifies(key.spki, SignedMessage(c, q), q.signature) <==>
                  Passes(c, r, q, ch, expected, now, SignatureValid))
  {
    hide Message, Canonical;
  }

  lemma QuoteChecks(c: Crypto, r: Registry, q: Quote, ch: Challenge, expected: Option<Measurement>, now: u64)
    ensures q.signature != [] <==> Passes(c, r, q, ch, expected, now, SignatureGiven)
    ensures c.parsesSignature(q.signature) <==> Passes(c, r, q, ch, expected, now, SignatureParses)
    ensures expected.Some? && DigestOf(c, expected.value) != DigestOf(c, q.measurement) <==>
            !Passes(c, r, q, ch, expected, now, AsExpected)
  {
    hide Message, Canonical;
  }

  /** The order of the checks in the source. */
  function Rank(k: Check): nat {
    match k
    case NonceNotZero => 0
    case TtlNotZero => 0
    case VerifierNamed => 0
    case NotRevoked => 1
    case Enrolled => 2
    case KeyCurrent => 3
    case KeyMatches => 4
    case NonceMatches => 5
    case NonceFresh => 6
    case InTime => 7
    case SignatureGiven => 8
    case KeyParses => 9
    case SignatureParses => 9
    case SignatureValid => 10
    case AsExpected => 11
  }

  /** The first check in order that a quote fails names the error. */
  lemma RefusalNamed(c: Crypto, r: Registry, q: Quote, ch: Challenge, expected: Option<Measurement>, now: u64, k: Check)
    requires r.providers != map[] || r.revoked != {}
    requires !Passes(c, r, q, ch, expected, now, k)
    requires forall j | Rank(j) < Rank(k) :: Passes(c, r, q, ch, expected, now, j)
    ensures Verdict(c, r, q, ch, expected, now) == Err(Named(k))
  {
    hide WellFormed, Expired, SignedMessage, DigestOf, Passes;
    ChallengeChecks(c, r, q, ch, expected, now);
    ProviderChecks(c, r, q, ch, expected, now);
    QuoteChecks(c, r, q, ch, expected, now);
    assert Rank(k) > 0 ==> WellFormed(ch);
  }

  /**
  A quote is accepted if and only if it passes every check, and then with its own
  provider, measurement and nonce.
  */
  lemma AcceptedExactly(c: Crypto, r: Registry, q: Quote, ch: Challenge, expected: Option<Measurement>, now: u64)
    ensures Verdict(c, r, q, ch, expected, now).Ok? <==> forall k :: Passes(c, r, q, ch, expected, now, k)
    ensures Verdict(c, r, q, ch, expected, now).Ok? ==>
              Verdict(c, r, q, ch, expected, now).value == Verified(q.provider, q.measurement, ch.nonce)
  {
    hide WellFormed, Expired, SignedMessage, DigestOf, Passes;
    ChallengeChecks(c, r, q, ch, expected, now);
    ProviderChecks(c, r, q, ch, expected, now);
    QuoteChecks(c, r, q, ch, expected, now);
    if q.provider in r.providers {
      assert r.providers != map[];
    }
    if Verdict(c, r, q, ch, expected, now).Ok? {
      forall k
        ensures Passes(c, r, q, ch, expected, now, k)
      {
        match k {
          case NonceNotZero =>
          case TtlNotZero =>
          case VerifierNamed =>
          case NotRevoked =>
          case Enrolled =>
          case KeyCurrent =>
          case KeyMatches =>
          case NonceMatches =>
          case NonceFresh =>
          case InTime =>
          case SignatureGiven =>
          case KeyParses =>
          case SignatureParses =>
          case SignatureValid =>
          case AsExpected =>
        }
      }
    }
  }

  /** Before the first enrolment or revocation nothing can be attested. */
  lemma EmptyRegistryRefuses(c: Crypto, q: Quote, ch: Challenge, expected: Option<Measurement>, now: u64,
                             consumed: set<Digest>)
    ensures Verdict(c, Registry(map[], {}, consumed), q, ch, expected, now) == Err(NoProvider)
  {
  }

  // ----- Authenticity -----

  /** Something a key signed: the key, and the three things `sign_quote` binds. */
  datatype Signing = Signing(spki: seq<byte>, provider: Id, nonce: Digest, measurement: Measurement)

  function SigningMessage(c: Crypto, s: Signing): seq<byte> {
    Message(s.provider, s.nonce, DigestOf(c, s.measurement))
  }

  /** Nobody forged this quote: if its signature verifies under a key, that key signed its message. */
  ghost predicate Unforged(c: Crypto, spki: seq<byte>, q: Quote, signed: set<Signing>) {
    c.verifies(spki, SignedMessage(c, q), q.signature) ==>
      exists s :: s in signed && s.spki == spki && SigningMessage(c, s) == SignedMessage(c, q)
  }

  /** Nobody found a digest collision between this measurement and a signed one. */
  ghost predicate NoCollision(c: Crypto, m: Measurement, signed: set<Signing>) {
    forall s | s in signed && DigestOf(c, s.measurement) == DigestOf(c, m) :: Canonical(s.measurement) == Canonical(m)
  }

  /**
  Every accepted quote is one the registered key signed: the same provider, the
  challenge's nonce and the same measurement.
  */
  lemma AcceptedWasSigned(c: Crypto, r: Registry, q: Quote, ch: Challenge, expected: Option<Measurement>, now: u64,
                          signed: set<Signing>)
    requires Verdict(c, r, q, ch, expected, now).Ok?
    requires Unforged(c, q.spki, q, signed) && NoCollision(c, q.measurement, signed)
    requires Sized(q.measurement) && forall s | s in signed :: Sized(s.measurement)
    ensures q.provider in r.providers
    ensures Signing(r.providers[q.provider].spki, q.provider, ch.nonce, q.measurement) in signed
  {
    var key := r.providers[q.provider];
    assert c.verifies(key.spki, SignedMessage(c, q), q.signature);
    var s :| s in signed && s.spki == key.spki && SigningMessage(c, s) == SignedMessage(c, q);
    MessageInjective(s.provider, s.nonce, DigestOf(c, s.measurement), q.provider, q.nonce, DigestOf(c, q.measurement));
    hide Canonical;
    assert Canonical(s.measurement) + [] == Canonical(q.measurement) + [];
    CanonicalInjective(s.measurement, [], q.measurement, []);
    assert s == Signing(key.spki, q.provider, ch.nonce, q.measurement);
  }

  /** If a measurement was demanded, the signed one is it. */
  lemma AcceptedAsExpected(c: Crypto, r: Registry, q: Quote, ch: Challenge, expected: Measurement, now: u64)
    requires Verdict(c, r, q, ch, Some(expected), now).Ok?
    requires DigestOf(c, expected) == DigestOf(c, q.measurement) ==> Canonical(expected) == Canonical(q.measurement)
    requires Sized(q.measurement) && Sized(expected)
    ensures q.measurement == expected
  {
    hide Canonical;
    assert Canonical(expected) + [] == Canonical(q.measurement) + [];
    CanonicalInjective(expected, [], q.measurement, []);
  }

  // ----- Honest quotes -----

  /** A key pair as far as the registry can tell: its public form and its signatures. */
  datatype Signer = Signer(spki: seq<byte>, sign: seq<byte> -> seq<byte>)

  /** What ECDSA and the DER encodings promise of a key pair. */
  ghost predicate Sound(c: Crypto, k: Signer) {
    c.parsesKey(k.spki) &&
    forall message :: k.sign(message) != [] && c.parsesSignature(k.sign(message)) &&
                      c.verifies(k.spki, message, k.sign(message))
  }

  function SignQuote(c: Crypto, k: Signer, provider: Id, m: Measurement, nonce: Digest): Quote {
    Quote(provider, m, nonce, k.spki, k.sign(Message(provider, nonce, DigestOf(c, m))))
  }

  /** A quote signed by an enrolled, unrevoked, unexpired provider for a fresh challenge is accepted. */
  lemma HonestQuoteAccepted(c: Crypto, r: Registry, k: Signer, provider: Id, m: Measurement, ch: Challenge,
                            expected: Option<Measurement>, now: u64)
    requires Sound(c, k) && provider in r.providers && provider !in r.revoked && r.providers[provider].spki == k.spki
    requires r.providers[provider].validUntil.None? || now <= r.providers[provider].validUntil.value
    requires (exists i | 0 <= i < 32 :: ch.nonce[i] != 0) && ch.ttl > 0 && ch.verifier != []
    requires now <= ch.issuedAt + ch.ttl && ch.nonce !in r.consumed
    requires expected.None? || expected.value == m
    ensures Verdict(c, r, SignQuote(c, k, provider, m, ch.nonce), ch, expected, now) ==
            Ok(Verified(provider, m, ch.nonce))
  {
    hide Verdict, Canonical, Message;
    var q := SignQuote(c, k, provider, m, ch.nonce);
    forall check
      ensures Passes(c, r, q, ch, expected, now, check)
    {
    }
    AcceptedExactly(c, r, q, ch, expected, now);
  }

  /**
  The assumptions about forgery and collisions are met by what honest signers
  do: a quote that a sound key pair signed is accepted and authentic together.
  */
  lemma HonestQuoteIsAuthentic(c: Crypto, r: Registry, k: Signer, provider: Id, m: Measurement, ch: Challenge, now: u64)
    requires Sound(c, k) && provider in r.providers && provider !in r.revoked && r.providers[provider].spki == k.spki
    requires r.providers[provider].validUntil.None? || now <= r.providers[provider].validUntil.value
    requires (exists i | 0 <= i < 32 :: ch.nonce[i] != 0) && ch.ttl > 0 && ch.verifier != []
    requires now <= ch.issuedAt + ch.ttl && ch.nonce !in r.consumed && Sized(m)
    ensures var q, signed := SignQuote(c, k, provider, m, ch.nonce), {Signing(k.spki, provider, ch.nonce, m)};
            && Verdict(c, r, q, ch, Some(m), now).Ok?
            && Unforged(c, q.spki, q, signed) && NoCollision(c, q.measurement, signed)
            && c.verifies(q.spki, SignedMessage(c, q), q.signature)
  {
    var q, s := SignQuote(c, k, provider, m, ch.nonce), Signing(k.spki, provider, ch.nonce, m);
    HonestQuoteAccepted(c, r, k, provider, m, ch, Some(m), now);
    assert SigningMessage(c, s) == SignedMessage(c, q);
    assert s in {s};
  }

  /** And the same quote is refused ever after, whatever happens in between. */
  lemma ReplayRefused(c: Crypto, r: Registry, ops: seq<Op>, q: Quote, ch: Challenge, expected: Option<Measurement>,
                      now: u64, later: u64)
    requires Verdict(c, r, q, ch, expected, now).Ok?
    ensures !Verdict(c, After(c, Verify(c, r, q, ch, expected, now).0, ops), q, ch, expected, later).Ok?
  {
    hide After;
    AfterGrows(c, Verify(c, r, q, ch, expected, now).0, ops);
  }
}
