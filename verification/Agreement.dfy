/** When a verifier agrees with the producer: a bundle that was written, carried
    over and authorized is allowed exactly when step 8 can use its manifests. */
module Agreement {
  import opened Wrappers
  import opened Statements
  import opened Policy
  import opened Cycles
  import opened Graph
  import opened DatasetStep
  import opened Verifier
  import opened Materials
  import opened Producer

  // ---------------------------------------------------------------------
  // The artifacts of the bundle
  // ---------------------------------------------------------------------

  // Every final artifact carries bytes with its digest, and bytes that have the
  // same identity are the same.
  predicate CarriesBytes(codec: Codec, draft: Draft) {
    && draft.bytes.Keys == (set a | a in draft.finals :: IdOf(a))
    && (forall id | id in draft.bytes :: codec.hash(draft.bytes[id]) == id.2)
    && (forall m | m in draft.historical + draft.manifests && MaterialId(codec, m) in draft.bytes ::
          draft.bytes[MaterialId(codec, m)] == m.bytes)
  }

  function MaterialBytes(codec: Codec, ms: seq<Material>): map<SubjectId, Bytes> {
    if ms == [] then map[]
    else
      var last := ms[|ms| - 1];
      map[MaterialId(codec, last) := last.bytes] + MaterialBytes(codec, ms[..|ms| - 1])
  }

  // The artifacts that the bundle maps: the final ones, and the other materials.
  function Contents(codec: Codec, draft: Draft): map<SubjectId, Bytes> {
    MaterialBytes(codec, draft.historical + draft.manifests) + draft.bytes
  }

  // The loops that write them, which skip what is already there.
  method WriteArtifacts(codec: Codec, draft: Draft) returns (written: map<SubjectId, Bytes>)
    requires CarriesBytes(codec, draft)
    ensures written == Contents(codec, draft)
  {
    hide MaterialBytes, MaterialId, MaterialsOk;
    written := map[];
    for k := 0 to |draft.finals|
      invariant written.Keys == set a | a in draft.finals[..k] :: IdOf(a)
      invariant forall id | id in written :: id in draft.bytes && written[id] == draft.bytes[id]
    {
      assert draft.finals[..k + 1] == draft.finals[..k] + [draft.finals[k]];
      assert draft.finals[k] in draft.finals;
      written := written[IdOf(draft.finals[k]) := draft.bytes[IdOf(draft.finals[k])]];
    }
    assert draft.finals[..|draft.finals|] == draft.finals;
    var materials := draft.historical + draft.manifests;
    NoMaterialBytes(codec);
    assert written == map[] + draft.bytes && materials[..0] == [];
    for k := 0 to |materials|
      invariant written == MaterialBytes(codec, materials[..k]) + draft.bytes
    {
      MoreMaterialBytes(codec, materials, k, draft.bytes);
      var id := MaterialId(codec, materials[k]);
      if id !in written {
        written := written[id := materials[k].bytes];
      }
    }
    assert materials[..|materials|] == materials;
  }

  lemma NoMaterialBytes(codec: Codec)
    ensures MaterialBytes(codec, []) == map[]
  {
  }

  lemma MoreMaterialBytes(codec: Codec, ms: seq<Material>, k: nat, finals: map<SubjectId, Bytes>)
    requires k < |ms|
    ensures var before, id := MaterialBytes(codec, ms[..k]) + finals, MaterialId(codec, ms[k]);
      MaterialBytes(codec, ms[..k + 1]) + finals == if id in before then before else before[id := ms[k].bytes]
  {
    hide MaterialId;
    assert ms[..k + 1][..k] == ms[..k];
  }

  lemma {:induction false} MaterialBytesHas(codec: Codec, ms: seq<Material>, k: nat)
    requires k < |ms|
    ensures MaterialId(codec, ms[k]) in MaterialBytes(codec, ms)
    decreases |ms|
  {
    hide MaterialId;
    if k < |ms| - 1 {
      MaterialBytesHas(codec, ms[..|ms| - 1], k);
    }
  }

  lemma {:induction false} MaterialBytesFrom(codec: Codec, ms: seq<Material>, id: SubjectId) returns (k: nat)
    requires id in MaterialBytes(codec, ms)
    ensures k < |ms| && MaterialId(codec, ms[k]) == id && MaterialBytes(codec, ms)[id] == ms[k].bytes
    decreases |ms|
  {
    hide MaterialId;
    if id in MaterialBytes(codec, ms[..|ms| - 1]) {
      k := MaterialBytesFrom(codec, ms[..|ms| - 1], id);
    } else {
      k := |ms| - 1;
    }
  }

  lemma MaterialBytesHold(codec: Codec, ms: seq<Material>, m: Material)
    requires m in ms && Distinct(codec, ms)
    ensures var id := MaterialId(codec, m);
      id in MaterialBytes(codec, ms) && MaterialBytes(codec, ms)[id] == m.bytes
  {
    hide MaterialBytes, MaterialId;
    var k: nat :| k < |ms| && ms[k] == m;
    MaterialBytesHas(codec, ms, k);
    var j := MaterialBytesFrom(codec, ms, MaterialId(codec, m));
    assert j == k;
  }

  // Every mapped artifact has bytes with its digest; a material has its own.
  lemma ContentsHold(codec: Codec, draft: Draft)
    requires IsCollectible(codec, draft) && CarriesBytes(codec, draft)
    ensures forall id | id in Contents(codec, draft) :: codec.hash(Contents(codec, draft)[id]) == id.2
    ensures forall m | m in draft.manifests ::
      MaterialId(codec, m) in Contents(codec, draft) && Contents(codec, draft)[MaterialId(codec, m)] == m.bytes
  {
    hide StatementMapOf, IsSubjectBytes, IsManifestBytes;
    var ms := draft.historical + draft.manifests;
    forall id | id in Contents(codec, draft)
      ensures codec.hash(Contents(codec, draft)[id]) == id.2
    {
      if id !in draft.bytes {
        var k := MaterialBytesFrom(codec, ms, id);
      }
    }
    forall m | m in draft.manifests
      ensures MaterialId(codec, m) in Contents(codec, draft) && Contents(codec, draft)[MaterialId(codec, m)] == m.bytes
    {
      assert m in ms;
      MaterialBytesHold(codec, ms, m);
    }
  }

  // ---------------------------------------------------------------------
  // Handing over
  // ---------------------------------------------------------------------

  // What step 8 sees of a draft whose statements are all authorized.
  function InputOf(codec: Codec, draft: Draft, world: World, request: Request): Step8Input {
    var ss := StatementMapOf(draft.attestations);
    Step8Input(ss, ss.Keys, true, world.artifactPaths, world.datasetEntries, draft.finals,
               request.consumerMaterials, request.consumerEntries, world.read, codec.hash, codec.parse,
               codec.coreProfile, world.manifestSchemaId, world.manifestMediaType)
  }

  // The bundle carries the producer's artifacts, none of which the consumer
  // supplies too, and both sides hash and parse alike.
  ghost predicate IsDelivered(codec: Codec, draft: Draft, world: World, request: Request) {
    && world.artifactPaths.Keys == Contents(codec, draft).Keys
    && (forall id | id in world.artifactPaths ::
          id in Contents(codec, draft) && world.read(world.artifactPaths[id]) == Content(Contents(codec, draft)[id]))
    && request.consumerMaterials.Keys !! world.artifactPaths.Keys
    && codec.hash == world.hash && codec.parse == world.parse && codec.coreProfile == world.coreProfile
    && forall m | m in draft.manifests :: CoreProfileFits(InputOf(codec, draft, world, request), m.name)
  }

  // It carries the producer's manifest and statements.
  ghost predicate IsHandedOver(codec: Codec, draft: Draft, g: GraphResult,
                               world: World, policy: TrustPolicy, request: Request, t: Trace) {
    var ss := StatementMapOf(draft.attestations);
    && world.manifest.Ok? && IsManifest(draft, ss, g, world.manifest.value.manifest)
    && IsTrace(world, policy, request, t) && StatementsOf(t.records) == ss
    && IsDelivered(codec, draft, world, request)
  }

  // The verifier authorizes the manifest and every statement.
  ghost predicate IsAllAuthorized(world: World, policy: TrustPolicy, request: Request, t: Trace)
    requires world.manifest.Ok?
  {
    HandoffAuthorized(policy, world.manifest.value.signatures, request.time) && t.authorized == t.records.Keys
  }

  // The producer succeeded.
  ghost predicate IsProduced(codec: Codec, draft: Draft, g: GraphResult, reached: set<Digest>) {
    var ss := StatementMapOf(draft.attestations);
    && IsCollectible(codec, draft) && CarriesBytes(codec, draft)
    && IsGraph(ss, KnownOf(codec, draft), g) && IsReachable(draft.heads, g.predecessors, reached)
    && Accepts(draft, ss, g, reached)
  }

  lemma StepsAgree(codec: Codec, draft: Draft, g: GraphResult, world: World, policy: TrustPolicy, request: Request,
          t: Trace)
    requires IsHandedOver(codec, draft, g, world, policy, request, t) && IsAllAuthorized(world, policy, request, t)
    ensures var w := InputOf(codec, draft, world, request);
      && w == Step8Of(world, request, world.manifest.value.manifest, t.records, t.authorized, true)
      && WellScoped(w) && AreCandidates(w, t.candidates) && Contributed(w, t.candidates, t.candidates.Keys, t.step8)
      && SameCodec(codec, w)
  {
    hide AreCandidates, Contributed, IsGraph, IsReachable, AreRecords, IsAuthorized, HandoffAuthorized, Contents,
      CoreProfileFits, StatementMapOf, UsableOf, UsableHeads, WellScoped;
    assert forall d :: d in t.records <==> d in StatementsOf(t.records);
  }

  // Unless step 8 rejects a manifest, the verifier knows at least the
  // producer's memberships.
  lemma {:induction false} VerifierKnows(codec: Codec, draft: Draft, g: GraphResult,
                        world: World, policy: TrustPolicy, request: Request, t: Trace)
    requires IsCollectible(codec, draft) && CarriesBytes(codec, draft)
    requires IsHandedOver(codec, draft, g, world, policy, request, t) && IsAllAuthorized(world, policy, request, t)
    requires forall id :: !IsRejected(InputOf(codec, draft, world, request), t.candidates, id)
    ensures var known := KnownOf(codec, draft).memberships;
      forall k | k in known :: k in t.step8.memberships && t.step8.memberships[k] == known[k]
  {
    hide IsTrace, IsManifest, CoreProfileFits, AreCandidates, Contributed, IsRejected, HandoffAuthorized, Contents,
      IsSubjectBytes, Distinct, CarriesBytes, StatementMapOf;
    var w := InputOf(codec, draft, world, request);
    StepsAgree(codec, draft, g, world, policy, request, t);
    ContentsHold(codec, draft);
    forall m | m in draft.manifests
      ensures m.statement in w.authorized && Delivered(w, MaterialId(codec, m), m)
    {
      assert m.statement in w.ss by { ManifestPresent(codec, w.ss, m); }
    }
    Step8Knows(codec, w, t.candidates, t.step8, draft.manifests);
  }

  lemma ManifestPresent(codec: Codec, ss: StatementMap, m: Material)
    requires IsManifestBytes(codec, ss, m)
    ensures m.statement in ss
  {
  }

  // Then he finds no graph problem, a complete manifest and only good final subjects.
  lemma {:induction false} VerifierAgrees(codec: Codec, draft: Draft, g: GraphResult, reached: set<Digest>,
                        world: World, policy: TrustPolicy, request: Request, t: Trace)
    requires IsProduced(codec, draft, g, reached)
    requires IsHandedOver(codec, draft, g, world, policy, request, t) && IsAllAuthorized(world, policy, request, t)
    requires forall id :: !IsRejected(InputOf(codec, draft, world, request), t.candidates, id)
    ensures t.graph.problems == []
    ensures Complete(world.manifest.value.manifest, t.records, t.graph, t.reached)
    ensures forall a | a in world.manifest.value.manifest.artifacts ::
      IsFinalSubject(UsableOf(world, t), t.graph.consumedSubjects, a)
  {
    hide IsDelivered, CarriesBytes, MaterialsOk, MembershipsOf, Step8Of, InputOf, IsRejected, HandoffAuthorized;
    var ss, m := StatementMapOf(draft.attestations), world.manifest.value.manifest;
    VerifierKnows(codec, draft, g, world, policy, request, t);
    EverythingUsable(world, t, ss);
    ValidWithMore(ss, KnownOf(codec, draft), DataOf(t), g, t.graph);
    HeadsArePresent(draft, ss, g, reached);
    AllHeadsUsable(m.heads, ss);
    SameReached(draft.heads, m.heads, g.predecessors, reached, t.reached);
    forall a | a in m.artifacts
      ensures IsFinalSubject(UsableOf(world, t), t.graph.consumedSubjects, a)
    {
      NamedAre(ss[a.head].subjects, a.name);
      assert IsExactSubject(ss, a) && FinalOk(ss, g, a);
      assert Subject(a.name, a.digest) in Named(ss[a.head].subjects, a.name);
    }
  }

  lemma {:induction false} AllHeadsUsable(heads: seq<Digest>, usable: StatementMap)
    requires Elements(heads) <= usable.Keys
    ensures UsableHeads(heads, usable) == heads
  {
    if heads != [] {
      var front, last := heads[..|heads| - 1], heads[|heads| - 1];
      assert last in Elements(heads);
      assert forall x | x in Elements(front) :: x in Elements(heads);
      AllHeadsUsable(front, usable);
      assert heads == front + [last];
    }
  }

  lemma EverythingUsable(world: World, t: Trace, ss: StatementMap)
    requires world.manifest.Ok? && world.manifest.value.manifest.statements == ss.Keys
    requires StatementsOf(t.records) == ss && t.authorized == t.records.Keys
    ensures UsableOf(world, t) == ss && t.records.Keys == ss.Keys
  {
    assert forall d :: d in t.records <==> d in StatementsOf(t.records);
  }

  lemma HeadsArePresent(draft: Draft, ss: StatementMap, g: GraphResult, reached: set<Digest>)
    requires IsReachable(draft.heads, g.predecessors, reached) && reached == ss.Keys
    requires Elements(draft.heads) == HeadsOf(draft.finals)
    ensures HeadsOf(draft.finals) <= ss.Keys && forall a | a in draft.finals :: a.head in ss
  {
    forall a | a in draft.finals ensures a.head in ss {
      assert a.head in HeadsOf(draft.finals);
    }
  }

  // ---------------------------------------------------------------------
  // The decision
  // ---------------------------------------------------------------------

  // The bytes that a verifier can get hold of.
  function BytesOf(codec: Codec, draft: Draft, request: Request, id: SubjectId): Option<Bytes> {
    if id in request.consumerMaterials then Some(request.consumerMaterials[id])
    else if id in Contents(codec, draft) then Some(Contents(codec, draft)[id])
    else None
  }

  // A subject that may be a dataset manifest can be used as one: its statement
  // declares the core profile and no second media type, and the bytes, which only
  // an unneeded manifest may lack, have its digest and parse.
  predicate IsReady(codec: Codec, draft: Draft, world: World, request: Request, id: SubjectId, required: bool) {
    var w := InputOf(codec, draft, world, request);
    && id.0 in w.ss && codec.coreProfile(id.1) in ArtifactProfiles(w.ss[id.0].profiles, id.1)
    && match BytesOf(codec, draft, request, id)
       case None => !required
       case Some(bytes) => codec.hash(bytes) == id.2 && codec.parse(bytes).Some? && |DeclaredTypes(w, id)| <= 1
  }

  // Everything that the draft or the consumer treats as a dataset manifest is ready.
  ghost predicate ManifestsAreReady(codec: Codec, draft: Draft, world: World, request: Request)
    requires WellScoped(InputOf(codec, draft, world, request))
  {
    var w := InputOf(codec, draft, world, request);
    forall id | IsRequired(w, id) || IsOptional(w, id) :: IsReady(codec, draft, world, request, id, IsRequired(w, id))
  }

  lemma RejectedIff(codec: Codec, draft: Draft, world: World, request: Request, c: Candidates, id: SubjectId)
    requires IsDelivered(codec, draft, world, request)
    requires id in c && id.0 in InputOf(codec, draft, world, request).ss
    ensures IsRejected(InputOf(codec, draft, world, request), c, id) <==>
      !IsReady(codec, draft, world, request, id, c[id])
  {
    hide StatementMapOf, Contents, CoreProfileFits;
  }

  // A candidate's statement is one of the draft's.
  lemma CandidateScoped(w: Step8Input, c: Candidates, id: SubjectId)
    requires WellScoped(w) && AreCandidates(w, c) && id in c
    ensures id.0 in w.ss
  {
    CandidateIdentity(w, c, id);
  }

  lemma {:induction false} NothingRejectedIff(codec: Codec, draft: Draft, world: World, request: Request, c: Candidates)
    requires IsDelivered(codec, draft, world, request)
    requires var w := InputOf(codec, draft, world, request); WellScoped(w) && AreCandidates(w, c)
    ensures (forall id :: !IsRejected(InputOf(codec, draft, world, request), c, id))
      <==> ManifestsAreReady(codec, draft, world, request)
  {
    hide IsDelivered, InputOf, IsReady, IsRequired, IsOptional, Judge;
    var w := InputOf(codec, draft, world, request);
    forall id | id in c
      ensures id.0 in w.ss && (IsRejected(w, c, id) <==> !IsReady(codec, draft, world, request, id, c[id]))
    {
      CandidateScoped(w, c, id);
      RejectedIff(codec, draft, world, request, c, id);
    }
  }

  // Signatures, loading, step 7, freshness and the checks given as lists find nothing.
  ghost predicate IsOtherwiseClean(world: World, policy: TrustPolicy, request: Request, t: Trace)
    requires world.manifest.Ok?
  {
    && SignaturesClean(world.manifest.value.signatures) && AllClean(t.records)
    && t.records.Keys == world.attestations.Keys
    && Fresh(policy, request, world.manifest.value)
    && world.metadataErrors == [] && world.laterErrors == []
  }

  lemma {:induction false} AuthorizedIsAllowedIff(codec: Codec, draft: Draft, g: GraphResult, reached: set<Digest>,
                        world: World, policy: TrustPolicy, request: Request, t: Trace)
    requires IsProduced(codec, draft, g, reached)
    requires IsHandedOver(codec, draft, g, world, policy, request, t) && IsAllAuthorized(world, policy, request, t)
    ensures WellScoped(InputOf(codec, draft, world, request))
    ensures Allowed(world, policy, request, t) <==>
      IsOtherwiseClean(world, policy, request, t) && ManifestsAreReady(codec, draft, world, request)
  {
    hide IsProduced, IsDelivered, Complete, IsTrace, IsManifest, InputOf, IsRejected, ManifestsAreReady, IsFinalSubject,
      HandoffAuthorized, Fresh, AreCandidates, Contributed, SignaturesClean, AllClean, BytesPresent;
    var w := InputOf(codec, draft, world, request);
    StepsAgree(codec, draft, g, world, policy, request, t);
    NothingRejectedIff(codec, draft, world, request, t.candidates);
    if forall id :: !IsRejected(w, t.candidates, id) {
      VerifierAgrees(codec, draft, g, reached, world, policy, request, t);
      FinalBytesPresent(codec, draft, g, reached, world, policy, request, t);
    }
  }

  // Main result: what the producer wrote is allowed exactly when it is authorized
  // as a whole, nothing else is found and the manifests are ready.
  lemma {:induction false} ProducedIsAllowedIff(codec: Codec, draft: Draft, g: GraphResult, reached: set<Digest>,
                        world: World, policy: TrustPolicy, request: Request, t: Trace)
    requires IsProduced(codec, draft, g, reached) && IsHandedOver(codec, draft, g, world, policy, request, t)
    ensures WellScoped(InputOf(codec, draft, world, request))
    ensures Allowed(world, policy, request, t) <==>
      && IsAllAuthorized(world, policy, request, t) && IsOtherwiseClean(world, policy, request, t)
      && ManifestsAreReady(codec, draft, world, request)
  {
    hide IsProduced, IsTrace, IsManifest, IsDelivered, HandoffAuthorized, IsOtherwiseClean, ManifestsAreReady, LateOk,
      SignaturesClean;
    if IsAllAuthorized(world, policy, request, t) {
      AuthorizedIsAllowedIff(codec, draft, g, reached, world, policy, request, t);
    }
  }

  lemma FinalBytesPresent(codec: Codec, draft: Draft, g: GraphResult, reached: set<Digest>,
                        world: World, policy: TrustPolicy, request: Request, t: Trace)
    requires IsProduced(codec, draft, g, reached) && IsHandedOver(codec, draft, g, world, policy, request, t)
    ensures forall a | a in world.manifest.value.manifest.artifacts :: BytesPresent(world, t.step8.snapshots, a)
  {
    hide IsTrace, IsGraph, IsReachable, Accepts, MaterialsOk, MaterialBytes, CoreProfileFits, HandoffAuthorized;
    forall a | a in draft.finals
      ensures BytesPresent(world, t.step8.snapshots, a)
    {
      assert IdOf(a) in draft.bytes;
    }
  }

  // ---------------------------------------------------------------------
  // A bundle that the producer writes and the verifier denies
  // ---------------------------------------------------------------------

  // A final artifact with the media type of manifests has to declare the core
  // profile, which the producer does not ask for.
  lemma FinalWithoutProfileDenied(codec: Codec, draft: Draft, g: GraphResult, reached: set<Digest>,
                        world: World, policy: TrustPolicy, request: Request, t: Trace, a: FinalArtifact)
    requires IsProduced(codec, draft, g, reached) && IsHandedOver(codec, draft, g, world, policy, request, t)
    requires a in draft.finals && a.mediaType == Some(world.manifestMediaType)
    requires a.head in StatementMapOf(draft.attestations)
    requires codec.coreProfile(a.name) !in StatementMapOf(draft.attestations)[a.head].profiles
    ensures !Allowed(world, policy, request, t)
  {
    hide IsHandedOver, IsAllAuthorized, IsOtherwiseClean, Allowed, IsGraph, IsReachable, CarriesBytes, MaterialsOk,
      IsRequired,
      LastNamed, Named;
    var w := InputOf(codec, draft, world, request);
    ProducedIsAllowedIff(codec, draft, g, reached, world, policy, request, t);
    assert IsExactSubject(w.ss, a);
    OneNamedIsLast(w.ss[a.head].subjects, a.name);
    assert FinalSubjectId(w, a) == Some(IdOf(a));
    assert IsOptional(w, IdOf(a)) && !IsReady(codec, draft, world, request, IdOf(a), IsRequired(w, IdOf(a)));
  }

  // One origin with one subject, which declares no profile.
  function BareDraft(codec: Codec, bytes: Bytes, mediaType: string): Draft {
    var digest := codec.hash(bytes);
    Draft([(0, BareStatement(digest))], V03, [], [], [0], [FinalArtifact(0, "data", digest, Some(mediaType))],
          map[(0, "data", digest) := bytes], None, None, 0)
  }

  function BareStatement(digest: Digest): Statement {
    Statement(V03, Origin, None, [Subject("data", digest)], [], [], None, None, None)
  }

  const BARE_GRAPH := GraphResult([0], [0], [0], map[0 := []], {}, [])

  lemma BareStatements(codec: Codec, bytes: Bytes, mediaType: string)
    ensures var digest := codec.hash(bytes);
      var ss := StatementMapOf(BareDraft(codec, bytes, mediaType).attestations);
      ss == map[0 := BareStatement(digest)] && Named(ss[0].subjects, "data") == [Subject("data", digest)]
  {
    var draft, subjects := BareDraft(codec, bytes, mediaType), BareStatement(codec.hash(bytes)).subjects;
    assert draft.attestations[..0] == [] && StatementMapOf([]) == map[];
    assert subjects[..0] == [] && Named([], "data") == [];
  }

  lemma FirstEdge(preds: Predecessors, w: seq<Digest>)
    requires IsWalk(preds, w) && |w| > 1
    ensures preds[w[0]] != []
  {
    assert w[0 + 1] in preds[w[0]];
  }

  lemma WalkWithoutEdges(preds: Predecessors, w: seq<Digest>)
    requires IsWalk(preds, w) && forall x | x in preds :: preds[x] == []
    ensures |w| == 1
  {
    if |w| > 1 {
      FirstEdge(preds, w);
    }
  }

  lemma BareProblems(ss: StatementMap, data: Datasets, digest: Digest)
    requires ss == map[0 := BareStatement(digest)]
    ensures LinkedInputs(ss, 0) == [] && PredecessorSet(ss, 0) == {} && RightProblems(ss, data, BARE_GRAPH)
  {
    hide InputProblem;
    var preds := BARE_GRAPH.predecessors;
    assert ss[0].version == V03 && IsGraphVersion(ss, V03);
    assert LinkedInputs(ss, 0) == [];
    assert ReportedCycles(BARE_GRAPH) == {};
    forall w | IsWalk(preds, w) ensures |w| == 1 {
      WalkWithoutEdges(preds, w);
    }
    assert MarksCycles(preds, {});
  }

  lemma BareGraph(ss: StatementMap, data: Datasets, digest: Digest)
    requires ss == map[0 := BareStatement(digest)]
    ensures IsGraph(ss, data, BARE_GRAPH) && IsReachable([0], BARE_GRAPH.predecessors, {0})
  {
    hide RightProblems, LinkedInputs, PredecessorSet;
    BareProblems(ss, data, digest);
    assert ss[0].subjects[0] in ss[0].subjects && IsTerminal(ss, 0);
    assert Elements([0]) == {0} && Elements([]) == {};
  }

  // The producer writes it whatever the media type ...
  lemma BareIsProduced(codec: Codec, bytes: Bytes, mediaType: string)
    ensures IsProduced(codec, BareDraft(codec, bytes, mediaType), BARE_GRAPH, {0})
  {
    hide IsGraph, IsReachable, StatementMapOf, Accepts, CarriesBytes, MaterialsOk, MembershipsOf;
    var draft := BareDraft(codec, bytes, mediaType);
    var ss := StatementMapOf(draft.attestations);
    BareStatements(codec, bytes, mediaType);
    BareGraph(ss, KnownOf(codec, draft), codec.hash(bytes));
    BareArtifact(codec, bytes, mediaType);
    BareIsAccepted(codec, bytes, mediaType, ss);
  }

  lemma BareArtifact(codec: Codec, bytes: Bytes, mediaType: string)
    ensures var draft := BareDraft(codec, bytes, mediaType);
      && CarriesBytes(codec, draft)
      && MaterialsOk(codec, StatementMapOf(draft.attestations), draft.historical, draft.manifests)
  {
    hide StatementMapOf;
    var draft := BareDraft(codec, bytes, mediaType);
    assert draft.finals[0] in draft.finals;
    assert (set a | a in draft.finals :: IdOf(a)) == {IdOf(draft.finals[0])};
  }

  lemma BareIsAccepted(codec: Codec, bytes: Bytes, mediaType: string, ss: StatementMap)
    requires ss == map[0 := BareStatement(codec.hash(bytes))]
    requires Named(ss[0].subjects, "data") == [Subject("data", codec.hash(bytes))]
    ensures Accepts(BareDraft(codec, bytes, mediaType), ss, BARE_GRAPH, {0})
  {
    hide Named, ArtifactProfiles;
    var draft := BareDraft(codec, bytes, mediaType);
    assert Elements([0]) == {0} == HeadsOf(draft.finals);
    assert ArtifactProfiles(ss[0].profiles, "data") == {} by { NoProfiles("data"); }
    assert MediaTypes(ss, draft.finals[0]) == {mediaType};
  }

  lemma NoProfiles(name: string)
    ensures ArtifactProfiles([], name) == {}
  {
  }

  // ... and no verifier allows it if that is the media type of manifests.
  lemma BareIsDenied(codec: Codec, bytes: Bytes, world: World, policy: TrustPolicy, request: Request, t: Trace)
    requires var draft := BareDraft(codec, bytes, world.manifestMediaType);
      IsHandedOver(codec, draft, BARE_GRAPH, world, policy, request, t)
    ensures !Allowed(world, policy, request, t)
  {
    hide IsHandedOver, IsOtherwiseClean, Allowed, IsProduced, StatementMapOf;
    var draft := BareDraft(codec, bytes, world.manifestMediaType);
    BareIsProduced(codec, bytes, world.manifestMediaType);
    BareStatements(codec, bytes, world.manifestMediaType);
    assert draft.finals[0] in draft.finals;
    FinalWithoutProfileDenied(codec, draft, BARE_GRAPH, {0}, world, policy, request, t, draft.finals[0]);
  }
}
