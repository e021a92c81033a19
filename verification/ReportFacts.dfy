/** The report of a run in the fields of the bundle, the policy and the request:
    which errors it lists, whether the run allows or denies. */
module ReportFacts {
  import opened Statements
  import opened Policy
  import opened Graph
  import opened DatasetStep
  import opened Verifier
  import opened PolicyFacts
  import opened GraphFacts
  import opened DatasetFacts
  import opened RunFacts

  // ---------------------------------------------------------------------
  // What was loaded and admitted
  // ---------------------------------------------------------------------

  // The indexed envelope decodes to a statement with the declared digest.
  predicate Loads(world: World, d: Digest) {
    && d in world.attestations && world.envelope(world.attestations[d]).Ok?
    && world.envelope(world.attestations[d]).value.digest == d
  }

  ghost function LoadedStatements(world: World): StatementMap {
    map d | d in world.attestations && Loads(world, d) :: world.envelope(world.attestations[d]).value.statement
  }

  ghost function AdmittedDigests(world: World, policy: TrustPolicy, time: int): set<Digest> {
    set d | d in world.attestations && Loads(world, d)
      && IsAdmitted(world, policy, time, d, world.envelope(world.attestations[d]).value)
  }

  // The statements of the graph: loaded, listed in the signed manifest, admitted.
  ghost function GraphStatements(world: World, policy: TrustPolicy, request: Request): StatementMap
    requires world.manifest.Ok?
  {
    map d | d in LoadedStatements(world) && d in world.manifest.value.manifest.statements
      && d in AdmittedDigests(world, policy, request.time) :: LoadedStatements(world)[d]
  }

  ghost predicate IsTrustedHandoff(world: World, policy: TrustPolicy, request: Request)
    requires world.manifest.Ok?
  {
    EnoughHaveSigned(policy, world.manifest.value.signatures, request.time, policy.handoff.signers,
      policy.handoff.minimumSignatures)
  }

  // What step 8 looks at.
  ghost function ManifestInput(world: World, policy: TrustPolicy, request: Request): Step8Input
    requires world.manifest.Ok?
  {
    Step8Input(LoadedStatements(world), AdmittedDigests(world, policy, request.time),
               IsTrustedHandoff(world, policy, request), world.artifactPaths, world.datasetEntries,
               world.manifest.value.manifest.artifacts, request.consumerMaterials, request.consumerEntries, world.read,
               world.hash, world.parse, world.coreProfile, world.manifestSchemaId, world.manifestMediaType)
  }

  lemma {:induction false} TraceIs(world: World, policy: TrustPolicy, request: Request, t: Trace)
    requires world.manifest.Ok? && IsTrace(world, policy, request, t)
    ensures StatementsOf(t.records) == LoadedStatements(world)
    ensures t.authorized == AdmittedDigests(world, policy, request.time)
    ensures UsableOf(world, t) == GraphStatements(world, policy, request)
    ensures HandoffAuthorized(policy, world.manifest.value.signatures, request.time) <==>
      IsTrustedHandoff(world, policy, request)
  {
    hide IsAuthorized, IsAdmitted, AreCandidates, Contributed, IsGraph, IsReachable, EnoughHaveSigned,
      HandoffAuthorized;
    HandoffAuthorizedIff(policy, world.manifest.value.signatures, request.time);
    forall d, loaded
      ensures IsAuthorized(world, policy, request.time, d, loaded) <==>
        IsAdmitted(world, policy, request.time, d, loaded)
    {
      AuthorizedIff(world, policy, request.time, d, loaded);
    }
    assert forall d | d in t.records :: d in world.attestations;
  }

  // Each statement of the path has an input from the next one.
  ghost predicate IsInputPath(ss: StatementMap, path: seq<Digest>) {
    path != [] && forall i | 0 <= i < |path| - 1 :: IsInputOf(ss, path[i], path[i + 1])
  }

  ghost predicate IsInputOf(ss: StatementMap, d: Digest, p: Digest) {
    exists x :: HasInput(ss, d, x) && x.statementDigest == p
  }

  // A path leads to it from a listed head that is in the graph.
  ghost predicate IsBehindHeads(m: Manifest, ss: StatementMap, d: Digest) {
    exists path :: IsInputPath(ss, path) && path[0] in m.heads && path[0] in ss && path[|path| - 1] == d
  }

  lemma {:induction false} UsableHeadsAre(heads: seq<Digest>, ss: StatementMap, d: Digest)
    ensures d in UsableHeads(heads, ss) <==> d in heads && d in ss
  {
    if heads != [] {
      UsableHeadsAre(heads[..|heads| - 1], ss, d);
      assert heads == heads[..|heads| - 1] + [heads[|heads| - 1]];
    }
  }

  lemma {:induction false} PathIff(ss: StatementMap, data: Datasets, g: GraphResult, path: seq<Digest>)
    requires IsGraph(ss, data, g)
    ensures IsPath(g.predecessors, path) <==> IsInputPath(ss, path)
  {
    hide IsGraph, HasInput;
    GraphInFields(ss, data, g);
    forall d, p
      ensures d in g.predecessors && p in g.predecessors[d] <==> IsInputOf(ss, d, p)
    {
      if x :| HasInput(ss, d, x) && x.statementDigest == p {
        InputOwner(ss, d, x);
      }
    }
    hide IsInputOf;
    if IsPath(g.predecessors, path) {
      forall i | 0 <= i < |path| - 1
        ensures IsInputOf(ss, path[i], path[i + 1])
      {
        assert path[i] in g.predecessors && path[i + 1] in g.predecessors[path[i]];
      }
    }
    if IsInputPath(ss, path) {
      forall i | 0 <= i < |path| - 1
        ensures path[i] in g.predecessors && path[i + 1] in g.predecessors[path[i]]
      {
        assert IsInputOf(ss, path[i], path[i + 1]);
      }
    }
  }

  lemma {:induction false} BehindIff(m: Manifest, ss: StatementMap, data: Datasets, g: GraphResult, d: Digest)
    requires IsGraph(ss, data, g)
    ensures IsBehind(UsableHeads(m.heads, ss), g.predecessors, d) <==> IsBehindHeads(m, ss, d)
  {
    assert forall path | IsInputPath(ss, path) :: path != [];
    assert forall path | IsPath(g.predecessors, path) :: path != [];
    hide IsGraph, IsPath, IsInputPath;
    forall path
      ensures IsPath(g.predecessors, path) <==> IsInputPath(ss, path)
    {
      PathIff(ss, data, g, path);
    }
    forall x
      ensures x in UsableHeads(m.heads, ss) <==> x in m.heads && x in ss
    {
      UsableHeadsAre(m.heads, ss, x);
    }
    hide UsableHeads;
  }

  lemma ManifestInputOf(world: World, policy: TrustPolicy, request: Request, t: Trace)
    requires world.manifest.Ok? && IsTrace(world, policy, request, t)
    ensures var w := ManifestInput(world, policy, request);
      WellScoped(w) && AreCandidates(w, t.candidates) && Contributed(w, t.candidates, t.candidates.Keys, t.step8)
  {
    var loaded := world.manifest.value;
    var handoff := HandoffAuthorized(policy, loaded.signatures, request.time);
    var w := Step8Of(world, request, loaded.manifest, t.records, t.authorized, handoff);
    TraceIs(world, policy, request, t);
    assert w == ManifestInput(world, policy, request);
    hide WellScoped, AreCandidates, Contributed, ManifestInput, Step8Of, IsGraph, IsReachable, AreRecords, IsAuthorized;
  }

  // Main result: what step 8 of a run learns.
  lemma {:induction false} LearnedInFields(world: World, policy: TrustPolicy, request: Request, t: Trace, w: Step8Input)
    requires world.manifest.Ok? && IsTrace(world, policy, request, t) && w == ManifestInput(world, policy, request)
    ensures forall e, digest ::
      e in t.step8.memberships && t.step8.memberships[e] == digest <==> IsRecorded(w, e, digest)
    ensures forall s :: s in t.step8.verifiedSubjects <==> exists id, bytes ::
      IsLookedAt(w, id) && id.0 in w.ss && (id.0, id.1) == s && IsUsable(w, id, bytes)
    ensures forall id, bytes: Bytes :: id in t.step8.snapshots && t.step8.snapshots[id] == bytes <==>
      IsKeptAs(w, id, bytes)
  {
    hide IsTrace, ManifestInput, IsRecorded, IsKeptAs, IsUsable, AreCandidates, Contributed, WellScoped;
    ManifestInputOf(world, policy, request, t);
    Step8InFields(w, t.candidates, t.step8);
  }

  // Main result: what a run reaches from the listed heads.
  lemma {:induction false} ReachedInFields(world: World, policy: TrustPolicy, request: Request, t: Trace, d: Digest)
    requires world.manifest.Ok? && IsTrace(world, policy, request, t)
    ensures d in t.reached <==>
      IsBehindHeads(world.manifest.value.manifest, GraphStatements(world, policy, request), d)
  {
    var m, ss := world.manifest.value.manifest, GraphStatements(world, policy, request);
    TraceIs(world, policy, request, t);
    assert IsGraph(ss, DataOf(t), t.graph);
    assert IsReachable(UsableHeads(m.heads, ss), t.graph.predecessors, t.reached);
    hide IsTrace, IsGraph, IsReachable, GraphStatements, IsBehindHeads, UsableHeads, IsBehind;
    ReachedIff(UsableHeads(m.heads, ss), t.graph.predecessors, t.reached, d);
    BehindIff(m, ss, DataOf(t), t.graph, d);
  }

  // ---------------------------------------------------------------------
  // Steps 5 to 8
  // ---------------------------------------------------------------------

  // Some rule covers the statement and enough of its signers have signed.
  ghost predicate IsCovered(policy: TrustPolicy, time: int, loaded: Loaded) {
    exists id | id in policy.rules ::
      && Covers(policy.rules[id], loaded.statement)
      && EnoughHaveSigned(policy, loaded.signatures, time, policy.rules[id].signers,
           policy.rules[id].minimumSignatures)
  }

  // The errors of one indexed statement.
  ghost predicate IsStatementReport(world: World, policy: TrustPolicy, time: int, d: Digest, e: Diagnostic) {
    d in world.attestations &&
    match world.envelope(world.attestations[d])
    case Err(error) => e == error
    case Ok(loaded) =>
      if loaded.digest != d then e == Diagnostic(StatementDigest, 3, AboutStatement(loaded.digest))
      else
        || (e == Diagnostic(SignatureInvalid, 5, AboutStatement(d)) && !NoneForged(loaded.signatures))
        || (e == Diagnostic(SignerUnauthorized, 6, AboutStatement(d)) && !IsCovered(policy, time, loaded))
        || (e == Diagnostic(ProfileUnresolved, 7, AboutStatement(d)) && IsCovered(policy, time, loaded)
            && !IsAdmitted(world, policy, time, d, loaded))
  }

  // The error of one subject that has to be, or may be, a dataset manifest.
  ghost predicate IsManifestReport(w: Step8Input, id: SubjectId, e: Diagnostic) {
    && IsLookedAt(w, id) && id.0 in w.ss && e.step == 8 && e.context == AboutSubject(id)
    && exists reading :: Reads(w, id, reading) && RejectsWith(w, id, reading, e.code)
  }

  ghost predicate RejectsWith(w: Step8Input, id: SubjectId, reading: Reading, code: ErrorCode)
    requires id.0 in w.ss
  {
    var outcome := OutcomeOf(w, id, MustBeManifest(w, id), reading);
    outcome.Rejected? && outcome.code == code
  }

  ghost predicate IsEarlyReport(world: World, policy: TrustPolicy, request: Request, e: Diagnostic)
    requires world.manifest.Ok?
  {
    var loaded := world.manifest.value;
    || (e == Diagnostic(SignatureInvalid, 5, AboutStatement(loaded.digest)) && !NoneForged(loaded.signatures))
    || (e == Diagnostic(SignerUnauthorized, 6, AboutStatement(loaded.digest))
        && !IsTrustedHandoff(world, policy, request))
    || (exists d :: IsStatementReport(world, policy, request.time, d, e))
    || e in world.metadataErrors
    || (exists id :: IsManifestReport(ManifestInput(world, policy, request), id, e))
  }

  lemma CoveredIff(policy: TrustPolicy, time: int, loaded: Loaded)
    ensures HasCandidate(policy, time, loaded) <==> IsCovered(policy, time, loaded)
  {
    hide IsCandidate, Covers, EnoughHaveSigned;
    forall id | id in policy.rules
      ensures IsCandidate(policy, id, loaded.statement, loaded.signatures, time) <==>
        && Covers(policy.rules[id], loaded.statement)
        && EnoughHaveSigned(policy, loaded.signatures, time, policy.rules[id].signers,
             policy.rules[id].minimumSignatures)
    {
      AuthorizesIff(policy, id, loaded.statement, loaded.signatures, time, map[]);
    }
  }

  lemma ForgedIff(signatures: seq<SignatureResult>, d: Digest, e: Diagnostic)
    ensures IsSignatureError(signatures, d, e) <==>
      e == Diagnostic(SignatureInvalid, 5, AboutStatement(d)) && !NoneForged(signatures)
  {
  }

  lemma {:induction false} StatementReportIff(world: World, policy: TrustPolicy, time: int, records: Records,
          d: Digest, e: Diagnostic)
    requires AreRecords(world, records)
    ensures IsStatementReport(world, policy, time, d, e) <==>
      || LoadFails(world, d, e)
      || (d in records && IsRecordError(world, policy, time, d, records[d], e))
  {
    hide NoneForged, IsSignatureError, HasCandidate, IsCovered, IsAuthorized, IsAdmitted;
    if d in records {
      ForgedIff(records[d].signatures, d, e);
      CoveredIff(policy, time, records[d]);
      AuthorizedIff(world, policy, time, d, records[d]);
    }
  }

  lemma {:induction false} ManifestReportIff(w: Step8Input, c: Candidates, id: SubjectId, e: Diagnostic)
    requires WellScoped(w) && AreCandidates(w, c)
    ensures IsManifestReport(w, id, e) <==> IsRejection(w, c, id, e)
  {
    hide Judge, OutcomeOf, IsRequired, IsOptional, MustBeManifest, MayBeManifest, MaterialOf;
    CandidatesIff(w, id);
    CandidatesPresent(w, c);
    if id in c {
      var reading := MaterialOf(w, id);
      assert Reads(w, id, reading) by { WhatIsRead(w, id); }
      OutcomeIs(w, id, c[id], reading);
      forall other | Reads(w, id, other) ensures other == reading {
      }
    }
  }

  lemma EarlyErrorsAre(world: World, policy: TrustPolicy, request: Request, t: Trace, e: Diagnostic)
    requires world.manifest.Ok?
    ensures var loaded := world.manifest.value;
      var handoff := HandoffAuthorized(policy, loaded.signatures, request.time);
      var w := Step8Of(world, request, loaded.manifest, t.records, t.authorized, handoff);
      e in EarlyErrors(world, policy, request, t) <==>
        || IsSignatureError(loaded.signatures, loaded.digest, e)
        || (e == Diagnostic(SignerUnauthorized, 6, AboutStatement(loaded.digest)) && !handoff)
        || IsLoadError(world, world.attestations.Keys, e)
        || IsRecordErrorAmong(world, policy, request.time, t.records, t.records.Keys, e)
        || e in world.metadataErrors
        || IsRejectionAmong(w, t.candidates, t.candidates.Keys, e)
  {
    hide HandoffAuthorized, Step8Of, IsSignatureError, IsLoadError, IsRecordErrorAmong, IsRejectionAmong;
  }

  lemma {:induction false} EarlyReportIff(world: World, policy: TrustPolicy, request: Request, t: Trace, e: Diagnostic)
    requires world.manifest.Ok? && IsTrace(world, policy, request, t)
    ensures e in EarlyErrors(world, policy, request, t) <==> IsEarlyReport(world, policy, request, e)
  {
    var loaded := world.manifest.value;
    var handoff := HandoffAuthorized(policy, loaded.signatures, request.time);
    var w := Step8Of(world, request, loaded.manifest, t.records, t.authorized, handoff);
    TraceIs(world, policy, request, t);
    assert w == ManifestInput(world, policy, request);
    assert AreRecords(world, t.records) && WellScoped(w) && AreCandidates(w, t.candidates);
    hide IsTrace, HandoffAuthorized, IsTrustedHandoff, NoneForged, IsSignatureError, ManifestInput, Step8Of,
      IsStatementReport, IsManifestReport, IsLoadError, IsRecordErrorAmong, IsRejectionAmong, AreRecords,
      AreCandidates, WellScoped, EarlyErrors;
    EarlyErrorsAre(world, policy, request, t, e);
    ForgedIff(loaded.signatures, loaded.digest, e);
    StatementReports(world, policy, request.time, t.records, e);
    ManifestReports(w, t.candidates, e);
  }

  lemma {:induction false} StatementReports(world: World, policy: TrustPolicy, time: int, records: Records,
          e: Diagnostic)
    requires AreRecords(world, records)
    ensures (exists d :: IsStatementReport(world, policy, time, d, e)) <==>
      || IsLoadError(world, world.attestations.Keys, e)
      || IsRecordErrorAmong(world, policy, time, records, records.Keys, e)
  {
    hide IsStatementReport, IsRecordError, LoadFails;
    forall d
      ensures IsStatementReport(world, policy, time, d, e) <==>
        || LoadFails(world, d, e)
        || (d in records && IsRecordError(world, policy, time, d, records[d], e))
    {
      StatementReportIff(world, policy, time, records, d, e);
    }
    if d :| LoadFails(world, d, e) {
      assert d in world.attestations by { FailureIsIndexed(world, d, e); }
    }
  }

  lemma FailureIsIndexed(world: World, d: Digest, e: Diagnostic)
    requires LoadFails(world, d, e)
    ensures d in world.attestations
  {
  }

  lemma {:induction false} ManifestReports(w: Step8Input, c: Candidates, e: Diagnostic)
    requires WellScoped(w) && AreCandidates(w, c)
    ensures (exists id :: IsManifestReport(w, id, e)) <==> IsRejectionAmong(w, c, c.Keys, e)
  {
    hide IsManifestReport, IsRejection;
    forall id
      ensures IsManifestReport(w, id, e) <==> IsRejection(w, c, id, e)
    {
      ManifestReportIff(w, c, id, e);
    }
    forall id | IsRejection(w, c, id, e)
      ensures id in c
    {
      RejectionIsCandidate(w, c, id, e);
    }
  }

  lemma RejectionIsCandidate(w: Step8Input, c: Candidates, id: SubjectId, e: Diagnostic)
    requires IsRejection(w, c, id, e)
    ensures id in c
  {
  }

  // ---------------------------------------------------------------------
  // The remaining steps
  // ---------------------------------------------------------------------

  // The artifact is a subject of its head that no input consumes.
  ghost predicate IsTerminalArtifact(ss: StatementMap, a: FinalArtifact) {
    && a.head in ss && Subject(a.name, a.digest) in ss[a.head].subjects
    && forall d, x :: !Consumes(ss, d, x, (a.head, a.name, a.digest))
  }

  // The signed manifest lists the statements behind its heads and, as roots,
  // those without inputs; its heads are those of its artifacts.
  ghost predicate Describes(m: Manifest, ss: StatementMap, reached: set<Digest>) {
    && reached == m.statements
    && (forall d :: d in m.roots <==> d in ss && forall x :: !HasInput(ss, d, x))
    && (forall d :: d in m.heads <==> exists a | a in m.artifacts :: a.head == d)
    && (forall a | a in m.artifacts :: IsTerminalArtifact(ss, a))
  }

  // ... and exactly the loaded statements.
  ghost predicate IsCompleteManifest(world: World, policy: TrustPolicy, request: Request, reached: set<Digest>)
    requires world.manifest.Ok?
  {
    && LoadedStatements(world).Keys == world.manifest.value.manifest.statements
    && Describes(world.manifest.value.manifest, GraphStatements(world, policy, request), reached)
  }

  // The statement has that defect, or lies on a cycle that was found.
  ghost predicate IsFaulty(ss: StatementMap, t: Trace, code: Code, d: Digest) {
    d in ss && if code == GraphCycle then Problem(GraphCycle, d) in t.graph.problems
               else IsDefective(ss, DataOf(t), code, d)
  }

  // The defects of the graph, without missing dataset manifests, under their steps.
  ghost predicate IsGraphReport(ss: StatementMap, t: Trace, e: Diagnostic) {
    exists code, d :: IsFaulty(ss, t, code, d) && code != DatasetManifestRequired
      && e.code == GraphError(code) && e.context == AboutStatement(d)
      && e.step == if code == PredicateSemanticsUnsupported then 4 else if code == RootInvalid then 10 else 9
  }

  ghost predicate IsArtifactReport(world: World, ss: StatementMap, t: Trace, a: FinalArtifact, e: Diagnostic) {
    if !IsTerminalArtifact(ss, a) then e == Diagnostic(ManifestSet, 11, AboutSubject((a.head, a.name, a.digest)))
    else BytesFail(world, t.step8.snapshots, a, e)
  }

  ghost predicate IsLateReport(world: World, policy: TrustPolicy, request: Request, t: Trace, e: Diagnostic)
    requires world.manifest.Ok?
  {
    var loaded, ss := world.manifest.value, GraphStatements(world, policy, request);
    || IsGraphReport(ss, t, e)
    || e in world.laterErrors
    || (IsTrustedHandoff(world, policy, request)
        && (|| (exists a | a in loaded.manifest.artifacts :: IsArtifactReport(world, ss, t, a, e))
            || (e == Diagnostic(ManifestSet, 11, Nothing) && !IsCompleteManifest(world, policy, request, t.reached))
            || IsFreshnessError(policy, request, loaded, e)))
  }

  lemma FaultyIff(ss: StatementMap, t: Trace, code: Code, d: Digest)
    requires IsGraph(ss, DataOf(t), t.graph)
    ensures Problem(code, d) in t.graph.problems <==> IsFaulty(ss, t, code, d)
  {
    GraphInFields(ss, DataOf(t), t.graph);
    if Problem(code, d) in t.graph.problems {
      ProblemsAreOfStatements(ss, DataOf(t), t.graph);
      assert Problem(code, d).statementDigest in ss;
    }
    hide IsGraph, IsDefective;
  }

  lemma {:induction false} GraphReportIff(ss: StatementMap, t: Trace, e: Diagnostic)
    requires IsGraph(ss, DataOf(t), t.graph)
    ensures IsGraphError(t.graph.problems, e) <==> IsGraphReport(ss, t, e)
  {
    hide IsGraph, IsFaulty;
    forall code, d
      ensures Problem(code, d) in t.graph.problems <==> IsFaulty(ss, t, code, d)
    {
      FaultyIff(ss, t, code, d);
    }
    if IsGraphError(t.graph.problems, e) {
      var k :| 0 <= k < |t.graph.problems| && t.graph.problems[k].code != DatasetManifestRequired
        && e == GraphDiagnostic(t.graph.problems[k]);
      var p := t.graph.problems[k];
      assert p in t.graph.problems && p == Problem(p.code, p.statementDigest);
    }
    if IsGraphReport(ss, t, e) {
      var code, d :| IsFaulty(ss, t, code, d) && code != DatasetManifestRequired
        && e == GraphDiagnostic(Problem(code, d));
      var k :| 0 <= k < |t.graph.problems| && t.graph.problems[k] == Problem(code, d);
    }
  }

  lemma ProblemsAreOfStatements(ss: StatementMap, data: Datasets, g: GraphResult)
    requires IsGraph(ss, data, g)
    ensures forall p | p in g.problems :: p.statementDigest in ss
  {
  }

  lemma {:induction false} TerminalIff(ss: StatementMap, data: Datasets, g: GraphResult, a: FinalArtifact)
    requires IsGraph(ss, data, g)
    ensures IsFinalSubject(ss, g.consumedSubjects, a) <==> IsTerminalArtifact(ss, a)
  {
    hide IsGraph, Consumes, HasInput, IsDefective;
    GraphInFields(ss, data, g);
  }

  lemma {:induction false} RootsAre(ss: StatementMap, data: Datasets, g: GraphResult, roots: set<Digest>)
    requires IsGraph(ss, data, g)
    ensures Elements(g.roots) == roots <==> forall d :: d in roots <==> d in ss && forall x :: !HasInput(ss, d, x)
  {
    GraphInFields(ss, data, g);
    assert forall d :: d in Elements(g.roots) <==> d in g.roots;
    hide IsGraph, HasInput, Consumes, IsDefective;
  }

  lemma HeadsAre(m: Manifest)
    ensures Elements(m.heads) == ArtifactHeads(m) <==>
      forall d :: d in m.heads <==> exists a | a in m.artifacts :: a.head == d
  {
    assert forall d :: d in Elements(m.heads) <==> d in m.heads;
    assert forall d :: d in ArtifactHeads(m) <==> exists a | a in m.artifacts :: a.head == d;
  }

  lemma {:induction false} DescribesIff(m: Manifest, ss: StatementMap, data: Datasets, g: GraphResult,
          reached: set<Digest>)
    requires IsGraph(ss, data, g)
    ensures Describes(m, ss, reached) <==>
      && reached == m.statements && Elements(g.roots) == m.roots && Elements(m.heads) == ArtifactHeads(m)
      && forall a | a in m.artifacts :: IsFinalSubject(ss, g.consumedSubjects, a)
  {
    hide IsGraph, IsFinalSubject, IsTerminalArtifact, HasInput, Elements, ArtifactHeads;
    RootsAre(ss, data, g, m.roots);
    HeadsAre(m);
    forall a
      ensures IsFinalSubject(ss, g.consumedSubjects, a) <==> IsTerminalArtifact(ss, a)
    {
      TerminalIff(ss, data, g, a);
    }
  }

  lemma {:induction false} CompleteIff(world: World, policy: TrustPolicy, request: Request, t: Trace)
    requires world.manifest.Ok? && IsTrace(world, policy, request, t)
    ensures var ss, m := GraphStatements(world, policy, request), world.manifest.value.manifest;
      IsCompleteManifest(world, policy, request, t.reached) <==>
        && Complete(m, t.records, t.graph, t.reached)
        && forall a | a in m.artifacts :: IsFinalSubject(ss, t.graph.consumedSubjects, a)
  {
    var ss, m := GraphStatements(world, policy, request), world.manifest.value.manifest;
    TraceIs(world, policy, request, t);
    assert IsGraph(ss, DataOf(t), t.graph);
    assert t.records.Keys == StatementsOf(t.records).Keys;
    hide IsTrace, IsGraph, IsFinalSubject, Describes, GraphStatements, LoadedStatements, Elements, ArtifactHeads;
    DescribesIff(m, ss, DataOf(t), t.graph, t.reached);
  }

  lemma {:induction false} ArtifactReportIff(world: World, ss: StatementMap, data: Datasets, t: Trace, m: Manifest,
          e: Diagnostic)
    requires IsGraph(ss, data, t.graph)
    ensures (exists a | a in m.artifacts :: IsArtifactReport(world, ss, t, a, e)) <==>
      || IsFinalError(m.artifacts, ss, t.graph.consumedSubjects, e)
      || IsBytesError(world, m.artifacts, Eligible(m, ss, t.graph.consumedSubjects), t.step8.snapshots, e)
  {
    hide IsGraph, IsTerminalArtifact, BytesFail;
    var consumed := t.graph.consumedSubjects;
    forall a
      ensures IsFinalSubject(ss, consumed, a) <==> IsTerminalArtifact(ss, a)
    {
      TerminalIff(ss, data, t.graph, a);
    }
    forall a | a in m.artifacts
      ensures IdOf(a) in Eligible(m, ss, consumed) <==> IsFinalSubject(ss, consumed, a)
    {
    }
    hide IsFinalSubject, Eligible;
    if a :| a in m.artifacts && IsArtifactReport(world, ss, t, a, e) {
      var k :| 0 <= k < |m.artifacts| && m.artifacts[k] == a;
    }
    assert forall k | 0 <= k < |m.artifacts| :: m.artifacts[k] in m.artifacts;
  }

  lemma LateErrorsAre(world: World, policy: TrustPolicy, request: Request, t: Trace, e: Diagnostic)
    requires world.manifest.Ok?
    ensures var loaded, ss, consumed := world.manifest.value, UsableOf(world, t), t.graph.consumedSubjects;
      var m := loaded.manifest;
      e in LateErrors(world, policy, request, t) <==>
        || IsGraphError(t.graph.problems, e)
        || e in world.laterErrors
        || (HandoffAuthorized(policy, loaded.signatures, request.time)
            && (|| IsFinalError(m.artifacts, ss, consumed, e)
                || IsBytesError(world, m.artifacts, Eligible(m, ss, consumed), t.step8.snapshots, e)
                || (e == Diagnostic(ManifestSet, 11, Nothing)
                    && !(Complete(m, t.records, t.graph, t.reached)
                         && forall a | a in m.artifacts :: IsFinalSubject(ss, consumed, a)))
                || IsFreshnessError(policy, request, loaded, e)))
  {
    hide UsableOf, Eligible, HandoffAuthorized, Complete, IsFinalSubject, IsFinalError, IsBytesError, IsGraphError,
      IsFreshnessError;
  }

  lemma {:induction false} LateReportIff(world: World, policy: TrustPolicy, request: Request, t: Trace, e: Diagnostic)
    requires world.manifest.Ok? && IsTrace(world, policy, request, t)
    ensures e in LateErrors(world, policy, request, t) <==> IsLateReport(world, policy, request, t, e)
  {
    var loaded, ss := world.manifest.value, GraphStatements(world, policy, request);
    TraceIs(world, policy, request, t);
    assert IsGraph(ss, DataOf(t), t.graph);
    LateErrorsAre(world, policy, request, t, e);
    hide IsTrace, IsGraph, GraphStatements, UsableOf, Eligible, HandoffAuthorized, IsTrustedHandoff, IsCompleteManifest,
      Complete, IsFinalSubject, IsArtifactReport, IsFinalError, IsBytesError, IsGraphError, IsGraphReport,
      IsFreshnessError, LateErrors;
    GraphReportIff(ss, t, e);
    CompleteIff(world, policy, request, t);
    ArtifactReportIff(world, ss, DataOf(t), t, loaded.manifest, e);
  }

  // Main result: a diagnostic is in the report of a run exactly if one of the
  // steps finds it.
  lemma {:induction false} ReportInFields(world: World, policy: TrustPolicy, request: Request, t: Trace, e: Diagnostic)
    requires world.manifest.Ok? && IsTrace(world, policy, request, t)
    ensures e in RunErrors(world, policy, request, t) <==>
      IsEarlyReport(world, policy, request, e) || IsLateReport(world, policy, request, t, e)
  {
    hide IsTrace, EarlyErrors, LateErrors, IsEarlyReport, IsLateReport;
    EarlyReportIff(world, policy, request, t, e);
    LateReportIff(world, policy, request, t, e);
  }
}
