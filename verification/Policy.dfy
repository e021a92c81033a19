/** The consumer's trust policy (src/makoto/policy.py).

    The cryptographic result of each signature is an input; thresholds, key
    validity and rule selection are modelled. */
module Policy {
  import opened Wrappers
  import opened Statements

  datatype Status = Pass | Fail | NotChecked

  datatype SignatureResult = SignatureResult(keyid: string, keyKnown: bool, cryptographic: Status)

  datatype Validity = Validity(validFrom: Option<int>, validUntil: Option<int>)

  datatype Constraint = Constraint(id: string, target: Target, digest: Option<Digest>, closureDigest: Option<Digest>)

  datatype Rule = Rule(
    predicateTypes: set<(Version, Kind)>,
    sourceKinds: Option<set<string>>, sourceUris: Option<set<string>>, operationTypes: Option<set<string>>,
    constraints: seq<Constraint>, signers: set<string>, minimumSignatures: nat)

  datatype HandoffRule = HandoffRule(
    signers: set<string>, minimumSignatures: nat,
    requireExpectedManifest: bool, requireExpectedHead: bool, requireExpectedArtifacts: bool,
    requireRecipient: bool, requireNonce: bool,
    maxAgeSeconds: Option<int>, maxFutureSkewSeconds: int, allowReplayableHandoff: bool)

  datatype TrustPolicy = TrustPolicy(
    keys: map<string, Validity>, keyless: set<string>, rules: map<string, Rule>, handoff: HandoffRule)

  // (profile id, digest, closure digest, target)
  type ProfileId = (string, Digest, Digest, Target)

  function Identity(p: Profile): ProfileId {
    (p.id, p.digest, p.closureDigest, p.target)
  }

  // ---------------------------------------------------------------------
  // What counts as a valid signer
  // ---------------------------------------------------------------------

  predicate KeyValidAt(v: Validity, time: int) {
    && (v.validFrom.Some? ==> v.validFrom.value <= time)
    && (v.validUntil.Some? ==> time < v.validUntil.value)
  }

  predicate SignerValidAt(policy: TrustPolicy, signer: string, time: int) {
    signer in policy.keyless || (signer in policy.keys && KeyValidAt(policy.keys[signer], time))
  }

  function PassingSigners(policy: TrustPolicy, signatures: seq<SignatureResult>, time: int): set<string> {
    set s | s in signatures && s.cryptographic == Pass && SignerValidAt(policy, s.keyid, time) :: s.keyid
  }

  // Enough distinct authorized signers, counted once each.
  predicate MeetsThreshold(passing: set<string>, signers: set<string>, minimum: nat) {
    |passing * signers| >= minimum
  }

  predicate HandoffAuthorized(policy: TrustPolicy, signatures: seq<SignatureResult>, time: int) {
    MeetsThreshold(PassingSigners(policy, signatures, time), policy.handoff.signers, policy.handoff.minimumSignatures)
  }

  predicate ProfileMatches(c: Constraint, p: Profile) {
    && p.id == c.id && p.target == c.target
    && (c.digest.Some? ==> p.digest == c.digest.value)
    && (c.closureDigest.Some? ==> p.closureDigest == c.closureDigest.value)
  }

  predicate Selects(allowed: Option<set<string>>, value: Option<string>) {
    allowed.Some? ==> value.Some? && value.value in allowed.value
  }

  predicate RuleMatches(rule: Rule, st: Statement) {
    && (st.version, st.kind) in rule.predicateTypes
    && Selects(rule.sourceKinds, st.sourceKind)
    && Selects(rule.sourceUris, st.sourceUri)
    && Selects(rule.operationTypes, st.operationType)
    && forall c | c in rule.constraints :: exists p | p in st.profiles :: ProfileMatches(c, p)
  }

  predicate IsCandidate(policy: TrustPolicy, id: string, st: Statement, signatures: seq<SignatureResult>, time: int) {
    && id in policy.rules && RuleMatches(policy.rules[id], st)
    && MeetsThreshold(PassingSigners(policy, signatures, time), policy.rules[id].signers,
          policy.rules[id].minimumSignatures)
  }

  // The first profile that a constraint matches.
  function FirstMatching(c: Constraint, profiles: seq<Profile>): Option<Profile> {
    if profiles == [] then None
    else if ProfileMatches(c, profiles[0]) then Some(profiles[0])
    else FirstMatching(c, profiles[1..])
  }

  // A digest-pinned constraint is met by the state of the first profile that it matches.
  predicate PinMet(c: Constraint, st: Statement, states: map<ProfileId, Status>) {
    c.digest.Some? ==>
      var p := FirstMatching(c, st.profiles);
      p.Some? && Identity(p.value) in states && states[Identity(p.value)] == Pass
  }

  predicate Authorizes(policy: TrustPolicy, id: string, st: Statement, signatures: seq<SignatureResult>, time: int,
                       states: map<ProfileId, Status>) {
    IsCandidate(policy, id, st, signatures, time) && forall c | c in policy.rules[id].constraints ::
      PinMet(c, st, states)
  }

  // ---------------------------------------------------------------------
  // The policy's methods
  // ---------------------------------------------------------------------

  method ComputePassing(policy: TrustPolicy, signatures: seq<SignatureResult>, time: int) returns (passing: set<string>)
    ensures passing == PassingSigners(policy, signatures, time)
  {
    passing := {};
    for k := 0 to |signatures|
      invariant passing == PassingSigners(policy, signatures[..k], time)
    {
      var s := signatures[k];
      assert signatures[..k + 1] == signatures[..k] + [s];
      if s.cryptographic == Pass && SignerValidAt(policy, s.keyid, time) {
        passing := passing + {s.keyid};
      }
    }
    assert signatures[..|signatures|] == signatures;
  }

  method AuthorizeHandoff(policy: TrustPolicy, signatures: seq<SignatureResult>, time: int) returns (authorized: bool)
    ensures authorized <==> HandoffAuthorized(policy, signatures, time)
  {
    var passing := ComputePassing(policy, signatures, time);
    authorized := |passing * policy.handoff.signers| >= policy.handoff.minimumSignatures;
  }

  // Step 6: the rules that match and whose threshold is met.
  method AuthorizeStatement(policy: TrustPolicy, st: Statement, signatures: seq<SignatureResult>, time: int)
    returns (candidates: set<string>)
    ensures forall id :: id in candidates <==> IsCandidate(policy, id, st, signatures, time)
  {
    var passing := ComputePassing(policy, signatures, time);
    candidates := {};
    var rest := policy.rules.Keys;
    while rest != {}
      invariant rest <= policy.rules.Keys
      invariant forall id :: id in candidates <==> id !in rest && IsCandidate(policy, id, st, signatures, time)
      decreases rest
    {
      var id :| id in rest;
      rest := rest - {id};
      var rule := policy.rules[id];
      if RuleMatches(rule, st) && |passing * rule.signers| >= rule.minimumSignatures {
        candidates := candidates + {id};
      }
    }
  }

  // Step 7: the candidates whose digest-pinned constraints are met.
  method FinalizeAuthorization(policy: TrustPolicy, st: Statement, candidates: set<string>,
          states: map<ProfileId, Status>)
    returns (authorizing: set<string>)
    requires candidates <= policy.rules.Keys
    ensures forall id :: id in authorizing <==>
      id in candidates && forall c | c in policy.rules[id].constraints :: PinMet(c, st, states)
  {
    authorizing := {};
    var rest := candidates;
    while rest != {}
      invariant rest <= candidates
      invariant forall id :: id in authorizing <==>
        id in candidates && id !in rest && forall c | c in policy.rules[id].constraints :: PinMet(c, st, states)
      decreases rest
    {
      var id :| id in rest;
      rest := rest - {id};
      var constraints := policy.rules[id].constraints;
      var passed := true;
      for k := 0 to |constraints|
        invariant passed <==> forall j | 0 <= j < k :: PinMet(constraints[j], st, states)
      {
        if !PinMet(constraints[k], st, states) {
          passed := false;
          break;
        }
      }
      if passed {
        authorizing := authorizing + {id};
      }
    }
  }
}
