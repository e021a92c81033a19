/** The verifier's decision in the fields of the bundle, the policy and the request. */
module RunFacts {
  import opened Statements
  import opened Policy
  import opened Cycles
  import opened Graph
  import opened DatasetStep
  import opened Verifier
  import opened Safety
  import opened PolicyFacts
  import opened GraphFacts
  import opened DatasetFacts

  // ---------------------------------------------------------------------
  // Signatures and authorization
  // ---------------------------------------------------------------------

  // No signature by a configured key is invalid.
  predicate NoneForged(signatures: seq<SignatureResult>) {
    forall k | 0 <= k < |signatures| :: signatures[k].keyKnown ==> signatures[k].cryptographic != Fail
  }

  lemma CleanIff(signatures: seq<SignatureResult>)
    ensures SignaturesClean(signatures) <==> NoneForged(signatures)
  {
    if SignaturesClean(signatures) {
      assert forall k | 0 <= k < |signatures| :: signatures[k] in signatures;
    }
  }

  // Some rule of the policy admits the loaded statement.
  ghost predicate IsAdmitted(world: World, policy: TrustPolicy, time: int, d: Digest, loaded: Loaded) {
    exists id | id in policy.rules ::
      Admits(policy, policy.rules[id], loaded.statement, loaded.signatures, time,
             if d in world.profileStates then world.profileStates[d] else map[])
  }

  // Main result: what authorizes a statement.
  lemma AuthorizedIff(world: World, policy: TrustPolicy, time: int, d: Digest, loaded: Loaded)
    ensures IsAuthorized(world, policy, time, d, loaded) <==> IsAdmitted(world, policy, time, d, loaded)
  {
    hide Authorizes, Admits;
    StatementAuthorizedIff(policy, loaded.statement, loaded.signatures, time, StatesOf(world, d));
  }

  // The indexed envelope decodes to a statement with the declared digest and
  // sound signatures that a rule admits.
  ghost predicate IsSound(world: World, policy: TrustPolicy, time: int, d: Digest) {
    && d in world.attestations && world.envelope(world.attestations[d]).Ok?
    && var loaded := world.envelope(world.attestations[d]).value;
       loaded.digest == d && NoneForged(loaded.signatures) && IsAdmitted(world, policy, time, d, loaded)
  }

  // The statements of the bundle, by their declared digests.
  ghost function BundleOf(world: World): StatementMap {
    map d | d in world.attestations && world.envelope(world.attestations[d]).Ok? ::
      world.envelope(world.attestations[d]).value.statement
  }

  // ---------------------------------------------------------------------
  // The decision
  // ---------------------------------------------------------------------

  // What step 8 looks at when everything is authorized.
  ghost function InputOfBundle(world: World, request: Request, m: Manifest): Step8Input {
    Step8Input(BundleOf(world), BundleOf(world).Keys, true, world.artifactPaths, world.datasetEntries, m.artifacts,
               request.consumerMaterials, request.consumerEntries, world.read, world.hash, world.parse,
               world.coreProfile, world.manifestSchemaId, world.manifestMediaType)
  }

  // Every subject that has to be a dataset manifest, or may be one, is usable or dispensable.
  ghost predicate ManifestsAreUsable(w: Step8Input) {
    forall id | IsLookedAt(w, id) && id.0 in w.ss :: IsDispensable(w, id) || exists bytes :: IsUsable(w, id, bytes)
  }

  // Enough signers of the handoff have signed, every indexed statement is
  // sound, every dataset manifest usable.
  ghost predicate IsSoundBundle(world: World, policy: TrustPolicy, request: Request)
    requires world.manifest.Ok?
  {
    var signatures := world.manifest.value.signatures;
    && NoneForged(signatures)
    && EnoughHaveSigned(policy, signatures, request.time, policy.handoff.signers, policy.handoff.minimumSignatures)
    && (forall d | d in world.attestations :: IsSound(world, policy, request.time, d))
    && ManifestsAreUsable(InputOfBundle(world, request, world.manifest.value.manifest))
    && world.metadataErrors == []
  }

  // The artifact is a subject of its head that no input consumes, and the bundle
  // maps it to bytes with its digest, unless step 8 has read them.
  ghost predicate IsSoundArtifact(world: World, t: Trace, a: FinalArtifact) {
    var ss, id := BundleOf(world), (a.head, a.name, a.digest);
    && a.head in ss && Subject(a.name, a.digest) in ss[a.head].subjects
    && (forall d, x :: !Consumes(ss, d, x, id))
    && id in world.artifactPaths
    && (id in t.step8.snapshots
        || exists bytes :: world.read(world.artifactPaths[id]) == Content(bytes) && world.hash(bytes) == a.digest)
  }

  // The signed manifest lists exactly the statements of the bundle, all behind
  // its heads, which are those of its artifacts, and as roots those without inputs.
  ghost predicate IsSoundManifest(world: World, t: Trace)
    requires world.manifest.Ok?
  {
    var ss, m := BundleOf(world), world.manifest.value.manifest;
    && m.statements == ss.Keys == t.reached
    && (forall d :: d in m.roots <==> d in ss && forall x :: !HasInput(ss, d, x))
    && (forall d :: d in m.heads <==> exists a | a in m.artifacts :: a.head == d)
    && (forall a | a in m.artifacts :: IsSoundArtifact(world, t, a))
  }

  lemma RecordsAre(world: World, records: Records)
    requires AreRecords(world, records)
    ensures records.Keys == world.attestations.Keys <==>
      forall d | d in world.attestations ::
        world.envelope(world.attestations[d]).Ok? && world.envelope(world.attestations[d]).value.digest == d
    ensures records.Keys == world.attestations.Keys ==> StatementsOf(records) == BundleOf(world)
  {
  }

  lemma SoundIff(world: World, policy: TrustPolicy, time: int, records: Records, d: Digest)
    requires AreRecords(world, records) && d in world.attestations
    ensures IsSound(world, policy, time, d) <==>
      && d in records && SignaturesClean(records[d].signatures) && IsAuthorized(world, policy, time, d, records[d])
  {
    hide NoneForged, SignaturesClean, IsAuthorized, IsAdmitted;
    if d in records {
      CleanIff(records[d].signatures);
      AuthorizedIff(world, policy, time, d, records[d]);
    }
  }

  // The first steps are silent exactly for a sound bundle.
  lemma {:induction false} EarlyInFields(world: World, policy: TrustPolicy, request: Request, t: Trace)
    requires world.manifest.Ok? && IsTrace(world, policy, request, t)
    ensures EarlyOk(world, policy, request, t) <==> IsSoundBundle(world, policy, request)
    ensures EarlyOk(world, policy, request, t) ==>
      t.records.Keys == world.attestations.Keys == t.authorized && StatementsOf(t.records) == BundleOf(world)
  {
    hide IsSound, SignaturesClean, NoneForged, IsAuthorized, HandoffAuthorized, EnoughHaveSigned, IsRejected,
      AreCandidates, Contributed, IsGraph, IsReachable, AreRecords, BundleOf, ManifestsAreUsable;
    var loaded := world.manifest.value;
    CleanIff(loaded.signatures);
    HandoffAuthorizedIff(policy, loaded.signatures, request.time);
    StatementsInFields(world, policy, request.time, t.records, t.authorized);
    RecordsAre(world, t.records);
    if t.records.Keys == world.attestations.Keys == t.authorized
       && HandoffAuthorized(policy, loaded.signatures, request.time)
    {
      assert BundleOf(world).Keys == t.records.Keys by { assert StatementsOf(t.records).Keys == t.records.Keys; }
      var w := InputOfBundle(world, request, loaded.manifest);
      assert w == Step8Of(world, request, loaded.manifest, t.records, t.authorized, true);
      UsableOrRejected(w, t.candidates, t.step8);
    }
  }

  lemma StatementsInFields(world: World, policy: TrustPolicy, time: int, records: Records, authorized: set<Digest>)
    requires AreRecords(world, records)
    requires forall d :: d in authorized <==> d in records && IsAuthorized(world, policy, time, d, records[d])
    ensures (forall d | d in world.attestations :: IsSound(world, policy, time, d)) <==>
      records.Keys == world.attestations.Keys && AllClean(records) && authorized == records.Keys
  {
    hide IsSound, SignaturesClean, IsAuthorized;
    forall d | d in world.attestations
      ensures IsSound(world, policy, time, d) <==>
        && d in records && SignaturesClean(records[d].signatures) && IsAuthorized(world, policy, time, d, records[d])
    {
      SoundIff(world, policy, time, records, d);
    }
  }

  lemma UsableOrRejected(w: Step8Input, c: Candidates, r: Step8Result)
    requires WellScoped(w) && AreCandidates(w, c) && Contributed(w, c, c.Keys, r)
    ensures (forall id :: !IsRejected(w, c, id)) <==> ManifestsAreUsable(w)
  {
    hide IsRejected, IsLookedAt, IsDispensable, IsUsable, AreCandidates, Contributed;
    Step8InFields(w, c, r);
  }

  lemma UsableIsBundle(world: World, t: Trace)
    requires world.manifest.Ok? && StatementsOf(t.records) == BundleOf(world) && t.authorized == t.records.Keys
    ensures world.manifest.value.manifest.statements == BundleOf(world).Keys ==> UsableOf(world, t) == BundleOf(world)
    ensures BundleOf(world).Keys == t.records.Keys
  {
    hide BundleOf;
    assert StatementsOf(t.records).Keys == t.records.Keys;
  }

  lemma BytesIff(world: World, t: Trace, a: FinalArtifact)
    ensures BytesPresent(world, t.step8.snapshots, a) <==>
      var id := (a.head, a.name, a.digest);
      && id in world.artifactPaths
      && (id in t.step8.snapshots
          || exists bytes :: world.read(world.artifactPaths[id]) == Content(bytes) && world.hash(bytes) == a.digest)
  {
    if IdOf(a) in world.artifactPaths {
      var reading := world.read(world.artifactPaths[IdOf(a)]);
      if reading.Content? && world.hash(reading.bytes) == a.digest {
        assert reading == Content(reading.bytes);
      }
    }
  }

  lemma ArtifactIff(world: World, data: Datasets, t: Trace, a: FinalArtifact)
    requires IsGraph(BundleOf(world), data, t.graph)
    ensures IsSoundArtifact(world, t, a) <==>
      IsFinalSubject(BundleOf(world), t.graph.consumedSubjects, a) && BytesPresent(world, t.step8.snapshots, a)
  {
    hide BundleOf, IsGraph, Consumes, BytesPresent, IsDefective, HasInput;
    GraphInFields(BundleOf(world), data, t.graph);
    BytesIff(world, t, a);
  }

  lemma ManifestIff(world: World, data: Datasets, t: Trace)
    requires world.manifest.Ok? && IsGraph(BundleOf(world), data, t.graph) && BundleOf(world).Keys == t.records.Keys
    ensures IsSoundManifest(world, t) <==>
      && Complete(world.manifest.value.manifest, t.records, t.graph, t.reached)
      && (forall a | a in world.manifest.value.manifest.artifacts ::
            && IsFinalSubject(BundleOf(world), t.graph.consumedSubjects, a)
            && BytesPresent(world, t.step8.snapshots, a))
  {
    hide BundleOf, IsGraph, IsFinalSubject, BytesPresent, IsSoundArtifact, HasInput, IsDefective, Consumes;
    var m := world.manifest.value.manifest;
    GraphInFields(BundleOf(world), data, t.graph);
    forall a | a in m.artifacts
      ensures IsSoundArtifact(world, t, a) <==>
        IsFinalSubject(BundleOf(world), t.graph.consumedSubjects, a) && BytesPresent(world, t.step8.snapshots, a)
    {
      ArtifactIff(world, data, t, a);
    }
    assert forall d :: d in Elements(t.graph.roots) <==> d in t.graph.roots;
    assert forall d :: d in Elements(m.heads) <==> d in m.heads;
    assert forall d :: d in ArtifactHeads(m) <==> exists a | a in m.artifacts :: a.head == d;
  }

  // The remaining steps are silent exactly for a good acyclic graph that the
  // signed manifest describes, with bytes for its artifacts, fresh.
  lemma {:induction false} LateInFields(world: World, policy: TrustPolicy, request: Request, t: Trace)
    requires world.manifest.Ok? && IsTrace(world, policy, request, t) && EarlyOk(world, policy, request, t)
    ensures LateOk(world, policy, request, t) <==>
      && IsGoodGraph(BundleOf(world), DataOf(t)) && IsAcyclic(t.graph.predecessors)
      && IsSoundManifest(world, t) && IsFreshHandoff(policy, request, world.manifest.value)
      && world.laterErrors == []
  {
    hide EarlyOk, IsGraph, IsReachable, IsGoodGraph, IsAcyclic, IsFreshHandoff, Fresh, IsFinalSubject, BytesPresent,
      AreRecords, IsAuthorized, AreCandidates, Contributed, BundleOf, IsSoundArtifact, HandoffAuthorized;
    var m := world.manifest.value.manifest;
    EarlyInFields(world, policy, request, t);
    EarlyAuthorizes(world, policy, request, t);
    UsableIsBundle(world, t);
    FreshIff(policy, request, world.manifest.value);
    if m.statements == BundleOf(world).Keys {
      GoodGraphHasNoProblem(BundleOf(world), DataOf(t), t.graph);
      ManifestIff(world, DataOf(t), t);
      if LateOk(world, policy, request, t) {
        AllowedGraphIsValid(world, policy, request, t);
      }
    }
  }

  lemma EarlyAuthorizes(world: World, policy: TrustPolicy, request: Request, t: Trace)
    requires world.manifest.Ok? && EarlyOk(world, policy, request, t)
    ensures t.authorized == t.records.Keys
  {
  }

  // Main result: when a run allows.
  lemma {:induction false} AllowedInFields(world: World, policy: TrustPolicy, request: Request, t: Trace)
    requires world.manifest.Ok? && IsTrace(world, policy, request, t)
    ensures Allowed(world, policy, request, t) <==>
      && IsSoundBundle(world, policy, request)
      && IsGoodGraph(BundleOf(world), DataOf(t)) && IsAcyclic(t.graph.predecessors)
      && IsSoundManifest(world, t) && IsFreshHandoff(policy, request, world.manifest.value)
      && world.laterErrors == []
  {
    hide IsTrace, EarlyOk, LateOk, IsSoundBundle, IsGoodGraph, IsAcyclic, IsSoundManifest, IsFreshHandoff, BundleOf;
    EarlyInFields(world, policy, request, t);
    if EarlyOk(world, policy, request, t) {
      LateInFields(world, policy, request, t);
    }
  }
}
