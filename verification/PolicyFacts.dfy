/** Authorization in the fields of the policy, the statement and its signatures. */
module PolicyFacts {
  import opened Wrappers
  import opened Statements
  import opened Policy

  // ---------------------------------------------------------------------
  // Signatures
  // ---------------------------------------------------------------------

  // A keyless identity, or a key from its first valid instant up to, and not
  // including, its last.
  predicate IsTrustedAt(policy: TrustPolicy, signer: string, time: int) {
    || signer in policy.keyless
    || (signer in policy.keys
        && (policy.keys[signer].validFrom == None || policy.keys[signer].validFrom.value <= time)
        && (policy.keys[signer].validUntil == None || time < policy.keys[signer].validUntil.value))
  }

  predicate HasSigned(policy: TrustPolicy, signatures: seq<SignatureResult>, signer: string, time: int) {
    && IsTrustedAt(policy, signer, time)
    && exists k | 0 <= k < |signatures| :: signatures[k].keyid == signer && signatures[k].cryptographic == Pass
  }

  // That many different listed signers have signed.
  ghost predicate EnoughHaveSigned(policy: TrustPolicy, signatures: seq<SignatureResult>, time: int,
                                   listed: set<string>, minimum: nat) {
    exists who: set<string> :: |who| == minimum && who <= listed && AllHaveSigned(policy, signatures, time, who)
  }

  predicate AllHaveSigned(policy: TrustPolicy, signatures: seq<SignatureResult>, time: int, who: set<string>) {
    forall signer | signer in who :: HasSigned(policy, signatures, signer, time)
  }

  lemma PassingIff(policy: TrustPolicy, signatures: seq<SignatureResult>, time: int, signer: string)
    ensures signer in PassingSigners(policy, signatures, time) <==> HasSigned(policy, signatures, signer, time)
  {
    if HasSigned(policy, signatures, signer, time) {
      var k :| 0 <= k < |signatures| && signatures[k].keyid == signer && signatures[k].cryptographic == Pass;
      assert signatures[k] in signatures;
    }
  }

  lemma {:induction false} SubsetCount(a: set<string>, b: set<string>)
    requires a <= b
    ensures |a| <= |b|
  {
    if a != {} {
      var x :| x in a;
      SubsetCount(a - {x}, b - {x});
    }
  }

  lemma {:induction false} SubsetOfSize(b: set<string>, n: nat) returns (a: set<string>)
    requires n <= |b|
    ensures a <= b && |a| == n
  {
    if n == |b| {
      a := b;
    } else {
      var x :| x in b;
      a := SubsetOfSize(b - {x}, n);
    }
  }

  lemma {:induction false} ThresholdIff(policy: TrustPolicy, signatures: seq<SignatureResult>, time: int,
                      listed: set<string>, minimum: nat)
    ensures MeetsThreshold(PassingSigners(policy, signatures, time), listed, minimum)
      <==> EnoughHaveSigned(policy, signatures, time, listed, minimum)
  {
    hide PassingSigners, HasSigned;
    var counted := PassingSigners(policy, signatures, time) * listed;
    forall signer
      ensures signer in PassingSigners(policy, signatures, time) <==> HasSigned(policy, signatures, signer, time)
    {
      PassingIff(policy, signatures, time, signer);
    }
    if |counted| >= minimum {
      var who := SubsetOfSize(counted, minimum);
      assert AllHaveSigned(policy, signatures, time, who);
    }
    if EnoughHaveSigned(policy, signatures, time, listed, minimum) {
      var who: set<string> :| |who| == minimum && who <= listed && AllHaveSigned(policy, signatures, time, who);
      SubsetCount(who, counted);
    }
  }

  // Main result for the handoff manifest.
  lemma HandoffAuthorizedIff(policy: TrustPolicy, signatures: seq<SignatureResult>, time: int)
    ensures HandoffAuthorized(policy, signatures, time) <==>
      EnoughHaveSigned(policy, signatures, time, policy.handoff.signers, policy.handoff.minimumSignatures)
  {
    ThresholdIff(policy, signatures, time, policy.handoff.signers, policy.handoff.minimumSignatures);
  }

  // ---------------------------------------------------------------------
  // Rules
  // ---------------------------------------------------------------------

  // The profile has the constraint's identifier and target, and its digests if it gives any.
  predicate Satisfies(p: Profile, c: Constraint) {
    && p.id == c.id && p.target == c.target
    && (c.digest == None || c.digest == Some(p.digest))
    && (c.closureDigest == None || c.closureDigest == Some(p.closureDigest))
  }

  // The rule lists the statement's predicate type, its source kind, source
  // address and operation type as far as it lists any, and each of its
  // constraints is satisfied by a profile.
  predicate Covers(rule: Rule, st: Statement) {
    && (st.version, st.kind) in rule.predicateTypes
    && (rule.sourceKinds == None || (st.sourceKind != None && st.sourceKind.value in rule.sourceKinds.value))
    && (rule.sourceUris == None || (st.sourceUri != None && st.sourceUri.value in rule.sourceUris.value))
    && (rule.operationTypes == None
        || (st.operationType != None && st.operationType.value in rule.operationTypes.value))
    && forall j | 0 <= j < |rule.constraints| :: IsSatisfied(rule.constraints[j], st.profiles)
  }

  predicate IsSatisfied(c: Constraint, profiles: seq<Profile>) {
    exists k | 0 <= k < |profiles| :: Satisfies(profiles[k], c)
  }

  // The first profile that satisfies a constraint with a digest passed its validation.
  predicate PinPassed(c: Constraint, profiles: seq<Profile>, states: map<ProfileId, Status>) {
    exists k | 0 <= k < |profiles| ::
      && Satisfies(profiles[k], c) && (forall j | 0 <= j < k :: !Satisfies(profiles[j], c))
      && var p := profiles[k];
         (p.id, p.digest, p.closureDigest, p.target) in states
         && states[(p.id, p.digest, p.closureDigest, p.target)] == Pass
  }

  lemma SatisfiesIff(c: Constraint, p: Profile)
    ensures ProfileMatches(c, p) <==> Satisfies(p, c)
  {
  }

  lemma ConstraintIff(c: Constraint, profiles: seq<Profile>)
    ensures (exists p | p in profiles :: ProfileMatches(c, p)) <==> IsSatisfied(c, profiles)
  {
    hide ProfileMatches, Satisfies;
    if p :| p in profiles && ProfileMatches(c, p) {
      SatisfiesIff(c, p);
      var k :| 0 <= k < |profiles| && profiles[k] == p;
    }
    if k :| 0 <= k < |profiles| && Satisfies(profiles[k], c) {
      SatisfiesIff(c, profiles[k]);
      assert profiles[k] in profiles;
    }
  }

  lemma MatchesIff(rule: Rule, st: Statement)
    ensures RuleMatches(rule, st) <==> Covers(rule, st)
  {
    hide ProfileMatches, IsSatisfied;
    forall c | c in rule.constraints
      ensures (exists p | p in st.profiles :: ProfileMatches(c, p)) <==> IsSatisfied(c, st.profiles)
    {
      ConstraintIff(c, st.profiles);
    }
    assert forall j | 0 <= j < |rule.constraints| :: rule.constraints[j] in rule.constraints;
  }

  lemma {:induction false} FirstMatchingIs(c: Constraint, profiles: seq<Profile>, k: nat)
    requires k < |profiles| && Satisfies(profiles[k], c) && forall j | 0 <= j < k :: !Satisfies(profiles[j], c)
    ensures FirstMatching(c, profiles) == Some(profiles[k])
    decreases k
  {
    if k > 0 {
      assert !Satisfies(profiles[0], c);
      FirstMatchingIs(c, profiles[1..], k - 1);
    }
  }

  lemma {:induction false} FirstMatchingAt(c: Constraint, profiles: seq<Profile>) returns (k: nat)
    requires FirstMatching(c, profiles).Some?
    ensures k < |profiles| && profiles[k] == FirstMatching(c, profiles).value
    ensures Satisfies(profiles[k], c) && forall j | 0 <= j < k :: !Satisfies(profiles[j], c)
  {
    if ProfileMatches(c, profiles[0]) {
      k := 0;
    } else {
      k := FirstMatchingAt(c, profiles[1..]);
      k := k + 1;
    }
  }

  lemma PinIff(c: Constraint, st: Statement, states: map<ProfileId, Status>)
    ensures PinMet(c, st, states) <==> (c.digest == None || PinPassed(c, st.profiles, states))
  {
    hide Satisfies;
    if c.digest.Some? {
      if FirstMatching(c, st.profiles).Some? {
        var k := FirstMatchingAt(c, st.profiles);
      }
      if PinPassed(c, st.profiles, states) {
        var k :| 0 <= k < |st.profiles| && Satisfies(st.profiles[k], c)
          && (forall j | 0 <= j < k :: !Satisfies(st.profiles[j], c))
          && Identity(st.profiles[k]) in states && states[Identity(st.profiles[k])] == Pass;
        FirstMatchingIs(c, st.profiles, k);
      }
    }
  }

  // A rule that covers the statement, enough of whose signers have signed, and
  // whose digest-pinned constraints have passed.
  ghost predicate Admits(policy: TrustPolicy, rule: Rule, st: Statement, signatures: seq<SignatureResult>, time: int,
                         states: map<ProfileId, Status>) {
    && Covers(rule, st)
    && EnoughHaveSigned(policy, signatures, time, rule.signers, rule.minimumSignatures)
    && forall j | 0 <= j < |rule.constraints| ::
         rule.constraints[j].digest == None || PinPassed(rule.constraints[j], st.profiles, states)
  }

  lemma AuthorizesIff(policy: TrustPolicy, id: string, st: Statement, signatures: seq<SignatureResult>, time: int,
                      states: map<ProfileId, Status>)
    requires id in policy.rules
    ensures IsCandidate(policy, id, st, signatures, time) <==>
      && Covers(policy.rules[id], st)
      && EnoughHaveSigned(policy, signatures, time, policy.rules[id].signers, policy.rules[id].minimumSignatures)
    ensures Authorizes(policy, id, st, signatures, time, states) <==>
      Admits(policy, policy.rules[id], st, signatures, time, states)
  {
    hide RuleMatches, Covers, MeetsThreshold, PassingSigners, EnoughHaveSigned, PinMet, PinPassed;
    var rule := policy.rules[id];
    MatchesIff(rule, st);
    ThresholdIff(policy, signatures, time, rule.signers, rule.minimumSignatures);
    forall c
      ensures PinMet(c, st, states) <==> (c.digest == None || PinPassed(c, st.profiles, states))
    {
      PinIff(c, st, states);
    }
    assert forall j | 0 <= j < |rule.constraints| :: rule.constraints[j] in rule.constraints;
  }

  // Main result for a statement: it is authorized exactly if some rule admits it.
  lemma {:induction false} StatementAuthorizedIff(policy: TrustPolicy, st: Statement, signatures: seq<SignatureResult>,
                                time: int, states: map<ProfileId, Status>)
    ensures (exists id | id in policy.rules :: Authorizes(policy, id, st, signatures, time, states)) <==>
      exists id | id in policy.rules :: Admits(policy, policy.rules[id], st, signatures, time, states)
  {
    hide Authorizes, Admits;
    forall id | id in policy.rules
      ensures Authorizes(policy, id, st, signatures, time, states) <==>
        Admits(policy, policy.rules[id], st, signatures, time, states)
    {
      AuthorizesIff(policy, id, st, signatures, time, states);
    }
  }
}
