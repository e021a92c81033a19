/** The verifier's decision (src/makoto/bundle.py, `_verify_bundle`).

    Files are a function from paths to readings, hashing and the parsing of
    dataset manifests are functions, and envelopes come already decoded.  The
    checks that are not modelled appear as lists of errors that they add. */
module Verifier {
  import opened Wrappers
  import opened Statements
  import opened Policy
  import opened Graph
  import opened DatasetStep

  datatype Manifest = Manifest(
    statements: set<Digest>, roots: set<Digest>, heads: seq<Digest>, artifacts: seq<FinalArtifact>,
    recipient: Option<string>, nonce: Option<string>, issuedAt: int)

  datatype LoadedManifest = LoadedManifest(digest: Digest, manifest: Manifest, signatures: seq<SignatureResult>)

  datatype Loaded = Loaded(digest: Digest, statement: Statement, signatures: seq<SignatureResult>)

  datatype World = World(
    // steps 1 to 4 up to the handoff manifest
    manifest: Result<LoadedManifest, Diagnostic>,
    // bundle.json
    attestations: map<Digest, string>, artifactPaths: map<SubjectId, string>, datasetEntries: set<EntryId>,
    // files and what they decode to
    envelope: string -> Result<Loaded, Diagnostic>, read: string -> Reading,
    hash: Bytes -> Digest, parse: Bytes -> Option<map<string, Digest>>,
    coreProfile: string -> Profile, manifestSchemaId: string, manifestMediaType: string,
    // step 7, and the historical-material, dataset-entry, artifact-profile and rescan checks
    profileStates: map<Digest, map<ProfileId, Status>>, metadataErrors: seq<Diagnostic>, laterErrors: seq<Diagnostic>)

  datatype Request = Request(
    time: int, expectedManifest: Option<Digest>, expectedHeads: set<Digest>, expectedArtifacts: set<SubjectId>,
    expectedRecipient: Option<string>, expectedNonce: Option<string>,
    consumerMaterials: map<SubjectId, Bytes>, consumerEntries: set<EntryId>)

  // ---------------------------------------------------------------------
  // Steps 3 to 7: loading and authorization
  // ---------------------------------------------------------------------

  type Records = map<Digest, Loaded>

  // An indexed attestation that decodes to the payload whose digest it declares.
  predicate LoadsAs(world: World, d: Digest) {
    && d in world.attestations
    && world.envelope(world.attestations[d]).Ok?
    && world.envelope(world.attestations[d]).value.digest == d
  }

  predicate AreRecords(world: World, records: Records) {
    && (forall d | d in world.attestations :: d in records <==> LoadsAs(world, d))
    && (forall d | d in records :: d in world.attestations && LoadsAs(world, d)
          && records[d] == world.envelope(world.attestations[d]).value)
  }

  // The error of an indexed attestation that does not load.
  predicate LoadFails(world: World, d: Digest, e: Diagnostic) {
    d in world.attestations &&
    match world.envelope(world.attestations[d])
    case Err(error) => e == error
    case Ok(loaded) => loaded.digest != d && e == Diagnostic(StatementDigest, 3, AboutStatement(loaded.digest))
  }

  ghost predicate IsLoadError(world: World, done: set<Digest>, e: Diagnostic) {
    exists d | d in done :: LoadFails(world, d, e)
  }

  ghost function LoadErrors(world: World, done: set<Digest>): iset<Diagnostic> {
    iset e | IsLoadError(world, done, e)
  }

  method LoadStatements(world: World, report: Report) returns (records: Records)
    modifies report`errors
    ensures AreRecords(world, records)
    ensures old(report.errors) <= report.errors
    ensures |report.errors| == |old(report.errors)| <==> records.Keys == world.attestations.Keys
    ensures Adds(old(report.errors), report.errors, LoadErrors(world, world.attestations.Keys))
  {
    hide Adds, LoadErrors;
    records := map[];
    NoLoadErrors(world, report.errors);
    var rest := world.attestations.Keys;
    while rest != {}
      invariant rest <= world.attestations.Keys
      invariant forall d | d in world.attestations.Keys - rest :: d in records <==> LoadsAs(world, d)
      invariant forall d | d in records ::
        (d in world.attestations.Keys - rest && LoadsAs(world, d)
          && records[d] == world.envelope(world.attestations[d]).value)
      invariant old(report.errors) <= report.errors
      invariant |report.errors| == |old(report.errors)| <==>
        forall d | d in world.attestations.Keys - rest :: d in records
      invariant Adds(old(report.errors), report.errors, LoadErrors(world, world.attestations.Keys - rest))
      decreases rest
    {
      var d :| d in rest;
      ghost var done := world.attestations.Keys - rest;
      rest := rest - {d};
      assert world.attestations.Keys - rest == done + {d};
      var loaded := world.envelope(world.attestations[d]);
      LoadErrorsOneMore(world, done, d, old(report.errors), report.errors);
      if loaded.Err? {
        report.AddError(loaded.error.code, loaded.error.step, loaded.error.context);
        continue;
      }
      if loaded.value.digest != d {
        report.AddError(StatementDigest, 3, AboutStatement(loaded.value.digest));
        continue;
      }
      records := records[d := loaded.value];
    }
    assert records.Keys <= world.attestations.Keys;
    assert world.attestations.Keys - {} == world.attestations.Keys;
  }

  lemma NoLoadErrors(world: World, before: seq<Diagnostic>)
    ensures Adds(before, before, LoadErrors(world, world.attestations.Keys - world.attestations.Keys))
  {
    AddsNothing(before);
    assert LoadErrors(world, world.attestations.Keys - world.attestations.Keys) == iset{};
  }

  function LoadErrorOf(world: World, d: Digest): seq<Diagnostic>
    requires d in world.attestations
  {
    match world.envelope(world.attestations[d])
    case Err(error) => [error]
    case Ok(loaded) =>
      if loaded.digest != d then [Diagnostic(StatementDigest, 3, AboutStatement(loaded.digest))] else []
  }

  lemma LoadErrorsOneMore(world: World, done: set<Digest>, d: Digest, before: seq<Diagnostic>, now: seq<Diagnostic>)
    requires d in world.attestations && Adds(before, now, LoadErrors(world, done))
    ensures Adds(before, now + LoadErrorOf(world, d), LoadErrors(world, done + {d}))
    ensures LoadErrorOf(world, d) == [] ==> Adds(before, now, LoadErrors(world, done + {d}))
  {
    forall e
      ensures e in LoadErrorOf(world, d) <==> LoadFails(world, d, e)
    {
    }
    AddsMore(before, now, LoadErrorOf(world, d), LoadErrors(world, done), LoadErrors(world, done + {d}));
    assert now + [] == now;
  }

  // No configured key produced an invalid signature.
  predicate SignaturesClean(signatures: seq<SignatureResult>) {
    forall s | s in signatures :: !(s.keyKnown && s.cryptographic == Fail)
  }

  predicate IsSignatureError(signatures: seq<SignatureResult>, d: Digest, e: Diagnostic) {
    && e == Diagnostic(SignatureInvalid, 5, AboutStatement(d))
    && exists k | 0 <= k < |signatures| :: signatures[k].keyKnown && signatures[k].cryptographic == Fail
  }

  ghost function SignatureErrors(signatures: seq<SignatureResult>, d: Digest): iset<Diagnostic> {
    iset e | IsSignatureError(signatures, d, e)
  }

  lemma SignatureErrorsOneMore(signatures: seq<SignatureResult>, k: nat, d: Digest, before: seq<Diagnostic>,
          now: seq<Diagnostic>)
    requires k < |signatures| && Adds(before, now, SignatureErrors(signatures[..k], d))
    ensures signatures[k].keyKnown && signatures[k].cryptographic == Fail ==>
      Adds(before, now + [Diagnostic(SignatureInvalid, 5, AboutStatement(d))], SignatureErrors(signatures[..k + 1], d))
    ensures !(signatures[k].keyKnown && signatures[k].cryptographic == Fail) ==>
      Adds(before, now, SignatureErrors(signatures[..k + 1], d))
  {
    var s := signatures[..k + 1];
    assert s[k] == signatures[k] && forall j | 0 <= j < k :: s[j] == signatures[..k][j];
    if signatures[k].keyKnown && signatures[k].cryptographic == Fail {
      AddsMore(before, now, [Diagnostic(SignatureInvalid, 5, AboutStatement(d))], SignatureErrors(signatures[..k], d),
        SignatureErrors(s, d));
    } else {
      assert SignatureErrors(s, d) == SignatureErrors(signatures[..k], d);
    }
  }

  lemma NoSignatureErrors(d: Digest, before: seq<Diagnostic>)
    ensures Adds(before, before, SignatureErrors([], d))
  {
    AddsNothing(before);
    assert SignatureErrors([], d) == iset{};
  }

  method RecordSignatures(signatures: seq<SignatureResult>, d: Digest, report: Report)
    modifies report`errors
    ensures old(report.errors) <= report.errors
    ensures |report.errors| == |old(report.errors)| <==> SignaturesClean(signatures)
    ensures Adds(old(report.errors), report.errors, SignatureErrors(signatures, d))
  {
    hide Adds, SignatureErrors;
    NoSignatureErrors(d, report.errors);
    assert signatures[..0] == [];
    for k := 0 to |signatures|
      invariant old(report.errors) <= report.errors
      invariant |report.errors| == |old(report.errors)| <==>
        forall j | 0 <= j < k :: !(signatures[j].keyKnown && signatures[j].cryptographic == Fail)
      invariant Adds(old(report.errors), report.errors, SignatureErrors(signatures[..k], d))
    {
      SignatureErrorsOneMore(signatures, k, d, old(report.errors), report.errors);
      if signatures[k].keyKnown && signatures[k].cryptographic == Fail {
        report.AddError(SignatureInvalid, 5, AboutStatement(d));
      }
    }
    assert signatures[..|signatures|] == signatures;
  }

  function StatesOf(world: World, d: Digest): map<ProfileId, Status> {
    if d in world.profileStates then world.profileStates[d] else map[]
  }

  // Some rule matches the statement, has enough valid signers and sees its pinned profiles pass.
  ghost predicate IsAuthorized(world: World, policy: TrustPolicy, time: int, d: Digest, record: Loaded) {
    exists id | id in policy.rules ::
      Authorizes(policy, id, record.statement, record.signatures, time, StatesOf(world, d))
  }

  ghost predicate HasCandidate(policy: TrustPolicy, time: int, record: Loaded) {
    exists id | id in policy.rules :: IsCandidate(policy, id, record.statement, record.signatures, time)
  }

  // The errors of one statement: an invalid signature, no rule that matches with
  // enough signers, or such rules but none whose pinned profiles pass.
  ghost predicate IsRecordError(world: World, policy: TrustPolicy, time: int, d: Digest, record: Loaded,
          e: Diagnostic) {
    || IsSignatureError(record.signatures, d, e)
    || (e == Diagnostic(SignerUnauthorized, 6, AboutStatement(d)) && !HasCandidate(policy, time, record))
    || (e == Diagnostic(ProfileUnresolved, 7, AboutStatement(d)) && HasCandidate(policy, time, record)
        && !IsAuthorized(world, policy, time, d, record))
  }

  ghost function RecordErrors(world: World, policy: TrustPolicy, time: int, d: Digest, record: Loaded)
    : iset<Diagnostic>
  {
    iset e | IsRecordError(world, policy, time, d, record, e)
  }

  // The signature errors, and behind them the error of step 6 or 7.
  lemma RecordErrorsAre(world: World, policy: TrustPolicy, time: int, d: Digest, record: Loaded,
          before: seq<Diagnostic>, now: seq<Diagnostic>, added: seq<Diagnostic>)
    requires Adds(before, now, SignatureErrors(record.signatures, d))
    requires added ==
      if !HasCandidate(policy, time, record) then [Diagnostic(SignerUnauthorized, 6, AboutStatement(d))]
      else if !IsAuthorized(world, policy, time, d, record) then [Diagnostic(ProfileUnresolved, 7, AboutStatement(d))]
      else []
    ensures Adds(before, now + added, RecordErrors(world, policy, time, d, record))
  {
    hide HasCandidate, IsAuthorized;
    AddsMore(before, now, added, SignatureErrors(record.signatures, d),
      RecordErrors(world, policy, time, d, record));
  }

  // Step 6 and step 7 for one statement.
  method AuthorizeRecord(world: World, policy: TrustPolicy, time: int, d: Digest, record: Loaded, report: Report)
    returns (authorized: bool)
    modifies report`errors
    ensures authorized <==> IsAuthorized(world, policy, time, d, record)
    ensures old(report.errors) <= report.errors
    ensures |report.errors| == |old(report.errors)| <==> SignaturesClean(record.signatures) && authorized
    ensures Adds(old(report.errors), report.errors, RecordErrors(world, policy, time, d, record))
  {
    hide Adds, SignatureErrors, RecordErrors;
    RecordSignatures(record.signatures, d, report);
    ghost var now := report.errors;
    var candidates := AuthorizeStatement(policy, record.statement, record.signatures, time);
    if candidates == {} {
      report.AddError(SignerUnauthorized, 6, AboutStatement(d));
    }
    assert candidates <= policy.rules.Keys;
    var authorizing := FinalizeAuthorization(policy, record.statement, candidates, StatesOf(world, d));
    if authorizing == {} && candidates != {} {
      report.AddError(ProfileUnresolved, 7, AboutStatement(d));
    }
    authorized := authorizing != {};
    ghost var states := StatesOf(world, d);
    if authorized {
      var id :| id in authorizing;
      assert Authorizes(policy, id, record.statement, record.signatures, time, states);
    }
    if id :| id in policy.rules && Authorizes(policy, id, record.statement, record.signatures, time, states) {
      assert id in candidates && id in authorizing;
    }
    assert HasCandidate(policy, time, record) <==> candidates != {};
    assert now + [] == now;
    RecordErrorsAre(world, policy, time, d, record, old(report.errors), now, report.errors[|now|..]);
    assert report.errors == now + report.errors[|now|..];
  }

  ghost predicate IsRecordErrorAmong(world: World, policy: TrustPolicy, time: int, records: Records, done: set<Digest>,
                                     e: Diagnostic) {
    exists d | d in done && d in records :: IsRecordError(world, policy, time, d, records[d], e)
  }

  ghost function AllRecordErrors(world: World, policy: TrustPolicy, time: int, records: Records, done: set<Digest>)
    : iset<Diagnostic>
  {
    iset e | IsRecordErrorAmong(world, policy, time, records, done, e)
  }

  ghost function Listed(errors: seq<Diagnostic>): iset<Diagnostic> {
    iset e | e in errors
  }

  lemma RecordErrorsOneMore(world: World, policy: TrustPolicy, time: int, records: Records, done: set<Digest>,
          d: Digest, before: seq<Diagnostic>, now: seq<Diagnostic>, then_: seq<Diagnostic>)
    requires d in records && Adds(before, now, AllRecordErrors(world, policy, time, records, done))
    requires Adds(now, then_, RecordErrors(world, policy, time, d, records[d]))
    ensures Adds(before, then_, AllRecordErrors(world, policy, time, records, done + {d}))
  {
    hide IsRecordError, Adds;
    AddsBoth(before, now, then_, AllRecordErrors(world, policy, time, records, done),
      RecordErrors(world, policy, time, d, records[d]));
    assert AllRecordErrors(world, policy, time, records, done + {d}) ==
      AllRecordErrors(world, policy, time, records, done) + RecordErrors(world, policy, time, d, records[d]);
  }

  lemma NoRecordErrors(world: World, policy: TrustPolicy, time: int, records: Records, before: seq<Diagnostic>)
    ensures Adds(before, before, AllRecordErrors(world, policy, time, records, records.Keys - records.Keys))
  {
    AddsNothing(before);
    assert AllRecordErrors(world, policy, time, records, records.Keys - records.Keys) == iset{};
  }

  lemma AddsListed(before: seq<Diagnostic>, now: seq<Diagnostic>, added: seq<Diagnostic>, errors: iset<Diagnostic>)
    requires Adds(before, now, errors)
    ensures Adds(before, now + added, errors + Listed(added))
  {
    AddsMore(before, now, added, errors, errors + Listed(added));
  }

  ghost predicate AllClean(records: Records) {
    forall d | d in records :: SignaturesClean(records[d].signatures)
  }

  method AuthorizeRecords(world: World, policy: TrustPolicy, time: int, records: Records, report: Report)
    returns (authorized: set<Digest>)
    modifies report`errors
    ensures forall d :: d in authorized <==> d in records && IsAuthorized(world, policy, time, d, records[d])
    ensures old(report.errors) <= report.errors
    ensures |report.errors| == |old(report.errors)| <==>
      AllClean(records) && authorized == records.Keys && world.metadataErrors == []
    ensures Adds(old(report.errors), report.errors,
      AllRecordErrors(world, policy, time, records, records.Keys) + Listed(world.metadataErrors))
  {
    hide IsAuthorized, SignaturesClean, Adds, AllRecordErrors, RecordErrors, Listed;
    authorized := {};
    NoRecordErrors(world, policy, time, records, report.errors);
    var rest := records.Keys;
    while rest != {}
      invariant rest <= records.Keys
      invariant forall d :: d in authorized <==>
        d in records && d !in rest && IsAuthorized(world, policy, time, d, records[d])
      invariant old(report.errors) <= report.errors
      invariant |report.errors| == |old(report.errors)| <==>
        forall d | d in records && d !in rest :: SignaturesClean(records[d].signatures) && d in authorized
      invariant Adds(old(report.errors), report.errors,
        AllRecordErrors(world, policy, time, records, records.Keys - rest))
      decreases rest
    {
      var d :| d in rest;
      ghost var done, now := records.Keys - rest, report.errors;
      rest := rest - {d};
      assert records.Keys - rest == done + {d};
      var ok := AuthorizeRecord(world, policy, time, d, records[d], report);
      RecordErrorsOneMore(world, policy, time, records, done, d, old(report.errors), now, report.errors);
      if ok {
        authorized := authorized + {d};
      }
    }
    assert (forall d | d in records :: d in authorized) <==> authorized == records.Keys;
    assert records.Keys - {} == records.Keys;
    AddsListed(old(report.errors), report.errors, world.metadataErrors,
      AllRecordErrors(world, policy, time, records, records.Keys));
    Append(world.metadataErrors, report);
  }

  // The errors of a check that is not modelled.
  method Append(errors: seq<Diagnostic>, report: Report)
    modifies report`errors
    ensures report.errors == old(report.errors) + errors
  {
    for k := 0 to |errors|
      invariant report.errors == old(report.errors) + errors[..k]
    {
      report.AddError(errors[k].code, errors[k].step, errors[k].context);
    }
    assert errors[..|errors|] == errors;
  }

  // ---------------------------------------------------------------------
  // Steps 8 to 11: the graph and the completeness anchor
  // ---------------------------------------------------------------------

  function StatementsOf(records: Records): StatementMap {
    map d | d in records :: records[d].statement
  }

  // The statements that the graph is built from.
  function Usable(records: Records, m: Manifest, authorized: set<Digest>): StatementMap {
    map d | d in records && d in m.statements && d in authorized :: records[d].statement
  }

  function Step8Of(world: World, request: Request, m: Manifest, records: Records, authorized: set<Digest>,
          handoff: bool): Step8Input
  {
    Step8Input(StatementsOf(records), authorized, handoff, world.artifactPaths, world.datasetEntries, m.artifacts,
               request.consumerMaterials, request.consumerEntries, world.read, world.hash, world.parse,
               world.coreProfile, world.manifestSchemaId, world.manifestMediaType)
  }

  // Graph problems other than E_DATASET_MANIFEST_REQUIRED, which is dropped.
  predicate NoEffectiveProblem(g: GraphResult) {
    forall p | p in g.problems :: p.code == DatasetManifestRequired
  }

  // The step under which a problem of the graph is reported.
  function StepOf(code: Code): nat {
    match code
    case PredicateSemanticsUnsupported => 4
    case RootInvalid => 10
    case _ => 9
  }

  function GraphDiagnostic(p: Problem): Diagnostic {
    Diagnostic(GraphError(p.code), StepOf(p.code), AboutStatement(p.statementDigest))
  }

  ghost predicate IsGraphError(problems: seq<Problem>, e: Diagnostic) {
    exists k | 0 <= k < |problems| && problems[k].code != DatasetManifestRequired :: e == GraphDiagnostic(problems[k])
  }

  ghost function GraphErrors(problems: seq<Problem>): iset<Diagnostic> {
    iset e | IsGraphError(problems, e)
  }

  function GraphErrorOf(p: Problem): seq<Diagnostic> {
    if p.code == DatasetManifestRequired then [] else [GraphDiagnostic(p)]
  }

  lemma GraphErrorsOneMore(problems: seq<Problem>, k: nat, before: seq<Diagnostic>, now: seq<Diagnostic>)
    requires k < |problems| && Adds(before, now, GraphErrors(problems[..k]))
    ensures Adds(before, now + GraphErrorOf(problems[k]), GraphErrors(problems[..k + 1]))
  {
    var s := problems[..k + 1];
    assert s[k] == problems[k] && forall j | 0 <= j < k :: s[j] == problems[..k][j];
    AddsMore(before, now, GraphErrorOf(problems[k]), GraphErrors(problems[..k]), GraphErrors(s));
  }

  lemma NoGraphErrors(before: seq<Diagnostic>)
    ensures Adds(before, before, GraphErrors([]))
  {
    AddsNothing(before);
    assert GraphErrors([]) == iset{};
  }

  method RecordGraphProblems(g: GraphResult, report: Report)
    modifies report`errors
    ensures old(report.errors) <= report.errors
    ensures |report.errors| == |old(report.errors)| <==> NoEffectiveProblem(g)
    ensures Adds(old(report.errors), report.errors, GraphErrors(g.problems))
  {
    hide Adds, GraphErrors;
    NoGraphErrors(report.errors);
    assert g.problems[..0] == [];
    for k := 0 to |g.problems|
      invariant old(report.errors) <= report.errors
      invariant |report.errors| == |old(report.errors)| <==>
        forall j | 0 <= j < k :: g.problems[j].code == DatasetManifestRequired
      invariant Adds(old(report.errors), report.errors, GraphErrors(g.problems[..k]))
    {
      var p := g.problems[k];
      GraphErrorsOneMore(g.problems, k, old(report.errors), report.errors);
      assert report.errors + [] == report.errors;
      if p.code != DatasetManifestRequired {
        report.AddError(GraphError(p.code), StepOf(p.code), AboutStatement(p.statementDigest));
      }
    }
    assert g.problems[..|g.problems|] == g.problems;
  }

  function IdOf(a: FinalArtifact): SubjectId {
    (a.head, a.name, a.digest)
  }

  // The artifact is an exact subject of its usable head that nothing consumes.
  predicate IsFinalSubject(usable: StatementMap, consumed: set<SubjectId>, a: FinalArtifact) {
    a.head in usable && Subject(a.name, a.digest) in usable[a.head].subjects && IdOf(a) !in consumed
  }

  ghost predicate IsFinalError(artifacts: seq<FinalArtifact>, usable: StatementMap, consumed: set<SubjectId>,
                               e: Diagnostic) {
    exists k | 0 <= k < |artifacts| && !IsFinalSubject(usable, consumed, artifacts[k]) ::
      e == Diagnostic(ManifestSet, 11, AboutSubject(IdOf(artifacts[k])))
  }

  ghost function FinalErrors(artifacts: seq<FinalArtifact>, usable: StatementMap, consumed: set<SubjectId>)
    : iset<Diagnostic>
  {
    iset e | IsFinalError(artifacts, usable, consumed, e)
  }

  function FinalErrorOf(usable: StatementMap, consumed: set<SubjectId>, a: FinalArtifact): seq<Diagnostic> {
    if IsFinalSubject(usable, consumed, a) then [] else [Diagnostic(ManifestSet, 11, AboutSubject(IdOf(a)))]
  }

  lemma FinalErrorsOneMore(artifacts: seq<FinalArtifact>, k: nat, usable: StatementMap, consumed: set<SubjectId>,
          before: seq<Diagnostic>, now: seq<Diagnostic>)
    requires k < |artifacts| && Adds(before, now, FinalErrors(artifacts[..k], usable, consumed))
    ensures Adds(before, now + FinalErrorOf(usable, consumed, artifacts[k]),
      FinalErrors(artifacts[..k + 1], usable, consumed))
  {
    hide IsFinalSubject;
    var s := artifacts[..k + 1];
    assert s[k] == artifacts[k] && forall j | 0 <= j < k :: s[j] == artifacts[..k][j];
    AddsMore(before, now, FinalErrorOf(usable, consumed, artifacts[k]),
      FinalErrors(artifacts[..k], usable, consumed), FinalErrors(s, usable, consumed));
  }

  lemma NoFinalErrors(usable: StatementMap, consumed: set<SubjectId>, before: seq<Diagnostic>)
    ensures Adds(before, before, FinalErrors([], usable, consumed))
  {
    AddsNothing(before);
    assert FinalErrors([], usable, consumed) == iset{};
  }

  method FinalSubjects(m: Manifest, usable: StatementMap, consumed: set<SubjectId>, report: Report)
    returns (eligible: set<SubjectId>, finalSubjectsOk: bool)
    modifies report`errors
    ensures forall id :: id in eligible <==>
      exists a | a in m.artifacts :: IdOf(a) == id && IsFinalSubject(usable, consumed, a)
    ensures old(report.errors) <= report.errors
    ensures finalSubjectsOk <==> forall a | a in m.artifacts :: IsFinalSubject(usable, consumed, a)
    ensures |report.errors| == |old(report.errors)| <==> finalSubjectsOk
    ensures Adds(old(report.errors), report.errors, FinalErrors(m.artifacts, usable, consumed))
  {
    hide Adds, FinalErrors;
    NoFinalErrors(usable, consumed, report.errors);
    assert m.artifacts[..0] == [];
    eligible, finalSubjectsOk := {}, true;
    for k := 0 to |m.artifacts|
      invariant forall id :: id in eligible <==>
        exists j | 0 <= j < k :: IdOf(m.artifacts[j]) == id && IsFinalSubject(usable, consumed, m.artifacts[j])
      invariant old(report.errors) <= report.errors
      invariant finalSubjectsOk <==> forall j | 0 <= j < k :: IsFinalSubject(usable, consumed, m.artifacts[j])
      invariant |report.errors| == |old(report.errors)| <==> finalSubjectsOk
      invariant Adds(old(report.errors), report.errors, FinalErrors(m.artifacts[..k], usable, consumed))
    {
      var a := m.artifacts[k];
      FinalErrorsOneMore(m.artifacts, k, usable, consumed, old(report.errors), report.errors);
      assert report.errors + [] == report.errors;
      var exact := a.head in usable && Subject(a.name, a.digest) in usable[a.head].subjects;
      var terminal := IdOf(a) !in consumed;
      if exact && terminal {
        eligible := eligible + {IdOf(a)};
      } else {
        finalSubjectsOk := false;
        report.AddError(ManifestSet, 11, AboutSubject(IdOf(a)));
      }
    }
    assert m.artifacts[..|m.artifacts|] == m.artifacts;
  }

  function ArtifactHeads(m: Manifest): set<Digest> {
    set a | a in m.artifacts :: a.head
  }

  // The signed manifest says exactly what was loaded, reached and rooted.
  predicate Complete(m: Manifest, records: Records, g: GraphResult, reached: set<Digest>) {
    && records.Keys == m.statements
    && reached == m.statements
    && Elements(g.roots) == m.roots
    && Elements(m.heads) == ArtifactHeads(m)
  }

  // ---------------------------------------------------------------------
  // Step 12: the bytes of the final artifacts
  // ---------------------------------------------------------------------

  // The bundle maps the artifact to a path, and bytes with the signed digest are there or were snapshotted.
  predicate BytesPresent(world: World, snapshots: map<SubjectId, Bytes>, a: FinalArtifact) {
    && IdOf(a) in world.artifactPaths
    && (IdOf(a) in snapshots
        || (world.read(world.artifactPaths[IdOf(a)]).Content?
            && world.hash(world.read(world.artifactPaths[IdOf(a)]).bytes) == a.digest))
  }

  // The error of a final artifact: it is not mapped, or its file is absent,
  // unreadable or has another digest.
  predicate BytesFail(world: World, snapshots: map<SubjectId, Bytes>, a: FinalArtifact, e: Diagnostic) {
    var id := IdOf(a);
    if id !in world.artifactPaths then e == Diagnostic(ManifestSet, 11, AboutSubject(id))
    else
      id !in snapshots &&
      match world.read(world.artifactPaths[id])
      case Absent => e == Diagnostic(ArtifactMissing, 12, AboutSubject(id))
      case Changed => e == Diagnostic(UnsafePath, 12, AboutSubject(id))
      case Unreadable => e == Diagnostic(UnsafePath, 12, AboutSubject(id))
      case Content(bytes) => world.hash(bytes) != a.digest && e == Diagnostic(ArtifactDigest, 12, AboutSubject(id))
  }

  ghost predicate IsBytesError(world: World, artifacts: seq<FinalArtifact>, eligible: set<SubjectId>,
                               snapshots: map<SubjectId, Bytes>, e: Diagnostic) {
    exists k | 0 <= k < |artifacts| && IdOf(artifacts[k]) in eligible :: BytesFail(world, snapshots, artifacts[k], e)
  }

  ghost function BytesErrors(world: World, artifacts: seq<FinalArtifact>, eligible: set<SubjectId>,
          snapshots: map<SubjectId, Bytes>): iset<Diagnostic>
  {
    iset e | IsBytesError(world, artifacts, eligible, snapshots, e)
  }

  function BytesErrorOf(world: World, snapshots: map<SubjectId, Bytes>, a: FinalArtifact): seq<Diagnostic> {
    var id := IdOf(a);
    if id !in world.artifactPaths then [Diagnostic(ManifestSet, 11, AboutSubject(id))]
    else if id in snapshots then []
    else
      match world.read(world.artifactPaths[id])
      case Absent => [Diagnostic(ArtifactMissing, 12, AboutSubject(id))]
      case Changed => [Diagnostic(UnsafePath, 12, AboutSubject(id))]
      case Unreadable => [Diagnostic(UnsafePath, 12, AboutSubject(id))]
      case Content(bytes) =>
        if world.hash(bytes) != a.digest then [Diagnostic(ArtifactDigest, 12, AboutSubject(id))] else []
  }

  lemma BytesErrorsOneMore(world: World, artifacts: seq<FinalArtifact>, k: nat, eligible: set<SubjectId>,
          snapshots: map<SubjectId, Bytes>, before: seq<Diagnostic>, now: seq<Diagnostic>)
    requires k < |artifacts| && Adds(before, now, BytesErrors(world, artifacts[..k], eligible, snapshots))
    ensures Adds(before,
      now + if IdOf(artifacts[k]) in eligible then BytesErrorOf(world, snapshots, artifacts[k]) else [],
      BytesErrors(world, artifacts[..k + 1], eligible, snapshots))
  {
    var s := artifacts[..k + 1];
    assert s[k] == artifacts[k] && forall j | 0 <= j < k :: s[j] == artifacts[..k][j];
    forall e
      ensures e in BytesErrorOf(world, snapshots, artifacts[k]) <==> BytesFail(world, snapshots, artifacts[k], e)
    {
    }
    hide BytesErrorOf, BytesFail;
    AddsMore(before, now, if IdOf(artifacts[k]) in eligible then BytesErrorOf(world, snapshots, artifacts[k]) else [],
      BytesErrors(world, artifacts[..k], eligible, snapshots), BytesErrors(world, s, eligible, snapshots));
  }

  lemma NoBytesErrors(world: World, eligible: set<SubjectId>, snapshots: map<SubjectId, Bytes>,
          before: seq<Diagnostic>)
    ensures Adds(before, before, BytesErrors(world, [], eligible, snapshots))
  {
    AddsNothing(before);
    assert BytesErrors(world, [], eligible, snapshots) == iset{};
  }

  method CheckFinalBytes(world: World, m: Manifest, eligible: set<SubjectId>, snapshots: map<SubjectId, Bytes>,
          report: Report)
    modifies report`errors
    ensures old(report.errors) <= report.errors
    ensures |report.errors| == |old(report.errors)| <==>
      forall a | a in m.artifacts && IdOf(a) in eligible :: BytesPresent(world, snapshots, a)
    ensures Adds(old(report.errors), report.errors, BytesErrors(world, m.artifacts, eligible, snapshots))
  {
    hide Adds, BytesErrors;
    NoBytesErrors(world, eligible, snapshots, report.errors);
    assert m.artifacts[..0] == [];
    var artifactBytes := snapshots;
    for k := 0 to |m.artifacts|
      invariant snapshots.Keys <= artifactBytes.Keys
      invariant forall id | id in artifactBytes && id !in snapshots :: exists j | 0 <= j < k ::
        IdOf(m.artifacts[j]) == id && BytesPresent(world, snapshots, m.artifacts[j])
      invariant old(report.errors) <= report.errors
      invariant |report.errors| == |old(report.errors)| <==>
        forall j | 0 <= j < k && IdOf(m.artifacts[j]) in eligible :: BytesPresent(world, snapshots, m.artifacts[j])
      invariant Adds(old(report.errors), report.errors, BytesErrors(world, m.artifacts[..k], eligible, snapshots))
    {
      var a := m.artifacts[k];
      var key := IdOf(a);
      BytesErrorsOneMore(world, m.artifacts, k, eligible, snapshots, old(report.errors), report.errors);
      assert report.errors + [] == report.errors;
      if key !in eligible {
        continue;
      }
      if key !in world.artifactPaths {
        report.AddError(ManifestSet, 11, AboutSubject(key));
      } else if key in artifactBytes {
        // already read with the right digest
      } else {
        match world.read(world.artifactPaths[key]) {
          case Absent => report.AddError(ArtifactMissing, 12, AboutSubject(key));
          case Changed => report.AddError(UnsafePath, 12, AboutSubject(key));
          case Unreadable => report.AddError(UnsafePath, 12, AboutSubject(key));
          case Content(material) =>
            if world.hash(material) != a.digest {
              report.AddError(ArtifactDigest, 12, AboutSubject(key));
            } else {
              artifactBytes := artifactBytes[key := material];
            }
        }
      }
    }
    assert m.artifacts[..|m.artifacts|] == m.artifacts;
  }

  // ---------------------------------------------------------------------
  // Step 11: freshness
  // ---------------------------------------------------------------------

  datatype Method = ExpectedManifestMethod | ExpectedHeadsMethod | ExpectedArtifactsMethod | NonceMethod | MaxAgeMethod

  function FinalIds(m: Manifest): set<SubjectId> {
    set a | a in m.artifacts :: IdOf(a)
  }

  predicate Applies(policy: TrustPolicy, request: Request, method_: Method) {
    match method_
    case ExpectedManifestMethod => request.expectedManifest.Some? || policy.handoff.requireExpectedManifest
    case ExpectedHeadsMethod => request.expectedHeads != {} || policy.handoff.requireExpectedHead
    case ExpectedArtifactsMethod => request.expectedArtifacts != {} || policy.handoff.requireExpectedArtifacts
    case NonceMethod => request.expectedNonce.Some? || policy.handoff.requireNonce
    case MaxAgeMethod => policy.handoff.maxAgeSeconds.Some?
  }

  predicate Passes(policy: TrustPolicy, request: Request, manifest: LoadedManifest, method_: Method) {
    match method_
    case ExpectedManifestMethod => request.expectedManifest == Some(manifest.digest)
    case ExpectedHeadsMethod => request.expectedHeads == Elements(manifest.manifest.heads)
    case ExpectedArtifactsMethod => request.expectedArtifacts == FinalIds(manifest.manifest)
    case NonceMethod => request.expectedNonce.Some? && request.expectedNonce == manifest.manifest.nonce
    case MaxAgeMethod =>
      policy.handoff.maxAgeSeconds.Some? &&
      -policy.handoff.maxFutureSkewSeconds <= request.time - manifest.manifest.issuedAt
        <= policy.handoff.maxAgeSeconds.value
  }

  // Every method that applies passes, the recipient is right if one is asked
  // for, and without any method the policy allows replay.
  ghost predicate Fresh(policy: TrustPolicy, request: Request, manifest: LoadedManifest) {
    && (forall x: Method :: Applies(policy, request, x) ==> Passes(policy, request, manifest, x))
    && (RecipientAsked(policy, request) ==> RecipientRight(request, manifest.manifest))
    && ((exists x: Method :: Applies(policy, request, x)) || policy.handoff.allowReplayableHandoff)
  }

  function Missed(applies: bool, passed: bool, code: ErrorCode): seq<Diagnostic> {
    if applies && !passed then [Diagnostic(code, 11, Nothing)] else []
  }

  // One anchor: an error if it applies and does not hold.
  method CheckAnchor(applies: bool, passed: bool, code: ErrorCode, report: Report)
    modifies report`errors
    ensures old(report.errors) <= report.errors
    ensures |report.errors| == |old(report.errors)| <==> (applies ==> passed)
    ensures report.errors == old(report.errors) + Missed(applies, passed, code)
  {
    if applies {
      if !passed {
        report.AddError(code, 11, Nothing);
      }
    }
  }

  // The anchors that count as freshness methods, in the order of the report.
  method CollectMethods(policy: TrustPolicy, request: Request) returns (methods: seq<Method>)
    ensures forall x: Method :: x in methods <==> Applies(policy, request, x)
  {
    methods := [];
    if Applies(policy, request, ExpectedManifestMethod) { methods := methods + [ExpectedManifestMethod]; }
    if Applies(policy, request, ExpectedHeadsMethod) { methods := methods + [ExpectedHeadsMethod]; }
    if Applies(policy, request, ExpectedArtifactsMethod) { methods := methods + [ExpectedArtifactsMethod]; }
    if Applies(policy, request, NonceMethod) { methods := methods + [NonceMethod]; }
    if Applies(policy, request, MaxAgeMethod) { methods := methods + [MaxAgeMethod]; }
  }

  predicate RecipientAsked(policy: TrustPolicy, request: Request) {
    request.expectedRecipient.Some? || policy.handoff.requireRecipient
  }

  predicate RecipientRight(request: Request, m: Manifest) {
    request.expectedRecipient.Some? && request.expectedRecipient == m.recipient
  }

  method EvaluateFreshness(policy: TrustPolicy, request: Request, manifest: LoadedManifest, report: Report)
    returns (methods: seq<Method>)
    modifies report`errors
    ensures old(report.errors) <= report.errors
    ensures |report.errors| == |old(report.errors)| <==> Fresh(policy, request, manifest)
    ensures |report.errors| == |old(report.errors)| <==> IsFreshHandoff(policy, request, manifest)
    ensures forall x: Method :: x in methods <==> Applies(policy, request, x)
    ensures Adds(old(report.errors), report.errors, FreshnessErrors(policy, request, manifest))
  {
    hide Applies, Passes, Fresh, IsFreshHandoff, Adds, FreshnessErrors, Missed;
    FreshIff(policy, request, manifest);
    methods := CollectMethods(policy, request);
    CheckMethod(policy, request, manifest, ExpectedManifestMethod, ExpectedManifest, report);
    CheckMethod(policy, request, manifest, ExpectedHeadsMethod, ExpectedHead, report);
    CheckMethod(policy, request, manifest, ExpectedArtifactsMethod, ExpectedArtifact, report);
    CheckAnchor(RecipientAsked(policy, request), RecipientRight(request, manifest.manifest), HandoffRecipient, report);
    CheckMethod(policy, request, manifest, NonceMethod, HandoffNonce, report);
    CheckMethod(policy, request, manifest, MaxAgeMethod, HandoffStale, report);
    CheckAnchor(methods == [], policy.handoff.allowReplayableHandoff, FreshnessRequired, report);
    FreshByCases(policy, request, manifest);
    assert (exists x: Method :: Applies(policy, request, x)) <==> methods != [] by {
      if methods != [] { assert methods[0] in methods; }
    }
    FreshnessErrorsAre(policy, request, manifest, old(report.errors));
    SevenParts(old(report.errors), AnchorError(policy, request, manifest, ExpectedManifestMethod, ExpectedManifest),
      AnchorError(policy, request, manifest, ExpectedHeadsMethod, ExpectedHead),
      AnchorError(policy, request, manifest, ExpectedArtifactsMethod, ExpectedArtifact),
      Missed(RecipientAsked(policy, request), RecipientRight(request, manifest.manifest), HandoffRecipient),
      AnchorError(policy, request, manifest, NonceMethod, HandoffNonce),
      AnchorError(policy, request, manifest, MaxAgeMethod, HandoffStale),
      Missed(methods == [], policy.handoff.allowReplayableHandoff, FreshnessRequired));
  }

  lemma SevenParts(z: seq<Diagnostic>, a: seq<Diagnostic>, b: seq<Diagnostic>, c: seq<Diagnostic>, d: seq<Diagnostic>,
          e: seq<Diagnostic>, f: seq<Diagnostic>, g: seq<Diagnostic>)
    ensures z + (a + b + c + d + e + f + g) == z + a + b + c + d + e + f + g
  {
  }

  // The errors in the order in which the anchors are looked at.
  ghost function AnchorErrors(policy: TrustPolicy, request: Request, manifest: LoadedManifest): seq<Diagnostic> {
    AnchorError(policy, request, manifest, ExpectedManifestMethod, ExpectedManifest)
    + AnchorError(policy, request, manifest, ExpectedHeadsMethod, ExpectedHead)
    + AnchorError(policy, request, manifest, ExpectedArtifactsMethod, ExpectedArtifact)
    + Missed(RecipientAsked(policy, request), RecipientRight(request, manifest.manifest), HandoffRecipient)
    + AnchorError(policy, request, manifest, NonceMethod, HandoffNonce)
    + AnchorError(policy, request, manifest, MaxAgeMethod, HandoffStale)
    + Missed(!(exists x: Method :: Applies(policy, request, x)), policy.handoff.allowReplayableHandoff,
        FreshnessRequired)
  }

  function AnchorError(policy: TrustPolicy, request: Request, manifest: LoadedManifest, x: Method, code: ErrorCode)
    : seq<Diagnostic>
  {
    Missed(Applies(policy, request, x), Passes(policy, request, manifest, x), code)
  }

  method CheckMethod(policy: TrustPolicy, request: Request, manifest: LoadedManifest, x: Method, code: ErrorCode,
          report: Report)
    modifies report`errors
    ensures old(report.errors) <= report.errors
    ensures |report.errors| == |old(report.errors)| <==> PassesIfApplies(policy, request, manifest, x)
    ensures report.errors ==
      old(report.errors) + Missed(Applies(policy, request, x), Passes(policy, request, manifest, x), code)
  {
    CheckAnchor(Applies(policy, request, x), Passes(policy, request, manifest, x), code, report);
  }

  predicate PassesIfApplies(policy: TrustPolicy, request: Request, manifest: LoadedManifest, x: Method) {
    Applies(policy, request, x) ==> Passes(policy, request, manifest, x)
  }

  lemma FreshByCases(policy: TrustPolicy, request: Request, manifest: LoadedManifest)
    ensures Fresh(policy, request, manifest) <==>
      && PassesIfApplies(policy, request, manifest, ExpectedManifestMethod)
      && PassesIfApplies(policy, request, manifest, ExpectedHeadsMethod)
      && PassesIfApplies(policy, request, manifest, ExpectedArtifactsMethod)
      && PassesIfApplies(policy, request, manifest, NonceMethod)
      && PassesIfApplies(policy, request, manifest, MaxAgeMethod)
      && (RecipientAsked(policy, request) ==> RecipientRight(request, manifest.manifest))
      && ((exists x: Method :: Applies(policy, request, x)) || policy.handoff.allowReplayableHandoff)
  {
    hide Applies, Passes;
    if forall x | x in [ExpectedManifestMethod, ExpectedHeadsMethod, ExpectedArtifactsMethod, NonceMethod, MaxAgeMethod]
      :: PassesIfApplies(policy, request, manifest, x)
    {
      forall x: Method
        ensures Applies(policy, request, x) ==> Passes(policy, request, manifest, x)
      {
        assert PassesIfApplies(policy, request, manifest, x) by { AllMethods(x); }
      }
    }
  }

  lemma AllMethods(x: Method)
    ensures x in [ExpectedManifestMethod, ExpectedHeadsMethod, ExpectedArtifactsMethod, NonceMethod, MaxAgeMethod]
  {
    match x
    case ExpectedManifestMethod =>
    case ExpectedHeadsMethod =>
    case ExpectedArtifactsMethod =>
    case NonceMethod =>
    case MaxAgeMethod =>
  }

  // ---------------------------------------------------------------------
  // Freshness in the fields of the request, the policy and the manifest
  // ---------------------------------------------------------------------

  // The consumer asked for it or the policy demands it: then it has to agree.
  predicate ManifestExpected(policy: TrustPolicy, request: Request) {
    request.expectedManifest != None || policy.handoff.requireExpectedManifest
  }

  predicate HeadsExpected(policy: TrustPolicy, request: Request) {
    request.expectedHeads != {} || policy.handoff.requireExpectedHead
  }

  predicate ArtifactsExpected(policy: TrustPolicy, request: Request) {
    request.expectedArtifacts != {} || policy.handoff.requireExpectedArtifacts
  }

  predicate NonceExpected(policy: TrustPolicy, request: Request) {
    request.expectedNonce != None || policy.handoff.requireNonce
  }

  predicate RecipientExpected(policy: TrustPolicy, request: Request) {
    request.expectedRecipient != None || policy.handoff.requireRecipient
  }

  // The handoff is at most maxFutureSkewSeconds early and maxAgeSeconds old.
  predicate InTime(policy: TrustPolicy, request: Request, issuedAt: int)
    requires policy.handoff.maxAgeSeconds != None
  {
    && issuedAt <= request.time + policy.handoff.maxFutureSkewSeconds
    && request.time <= issuedAt + policy.handoff.maxAgeSeconds.value
  }

  predicate NamesArtifact(m: Manifest, id: SubjectId) {
    exists k | 0 <= k < |m.artifacts| ::
      m.artifacts[k].head == id.0 && m.artifacts[k].name == id.1 && m.artifacts[k].digest == id.2
  }

  ghost predicate IsFreshHandoff(policy: TrustPolicy, request: Request, manifest: LoadedManifest) {
    var h, m := policy.handoff, manifest.manifest;
    && (ManifestExpected(policy, request) ==> request.expectedManifest == Some(manifest.digest))
    && (HeadsExpected(policy, request) ==> forall d :: d in request.expectedHeads <==> d in m.heads)
    && (ArtifactsExpected(policy, request) ==>
          forall id :: id in request.expectedArtifacts <==> NamesArtifact(m, id))
    && (RecipientExpected(policy, request) ==>
          request.expectedRecipient != None && request.expectedRecipient == m.recipient)
    && (NonceExpected(policy, request) ==> request.expectedNonce != None && request.expectedNonce == m.nonce)
    && (h.maxAgeSeconds != None ==> InTime(policy, request, m.issuedAt))
    && (|| ManifestExpected(policy, request) || HeadsExpected(policy, request) || ArtifactsExpected(policy, request)
        || NonceExpected(policy, request) || h.maxAgeSeconds != None || h.allowReplayableHandoff)
  }

  lemma ArtifactIdsAre(m: Manifest, id: SubjectId)
    ensures id in FinalIds(m) <==> NamesArtifact(m, id)
  {
    if NamesArtifact(m, id) {
      var k :| 0 <= k < |m.artifacts|
        && m.artifacts[k].head == id.0 && m.artifacts[k].name == id.1 && m.artifacts[k].digest == id.2;
      assert m.artifacts[k] in m.artifacts && IdOf(m.artifacts[k]) == id;
    }
  }

  // Main result: the freshness anchors.
  lemma FreshIff(policy: TrustPolicy, request: Request, manifest: LoadedManifest)
    ensures Fresh(policy, request, manifest) <==> IsFreshHandoff(policy, request, manifest)
  {
    hide NamesArtifact, FinalIds, Fresh;
    FreshByCases(policy, request, manifest);
    MethodsApply(policy, request);
    forall id
      ensures id in FinalIds(manifest.manifest) <==> NamesArtifact(manifest.manifest, id)
    {
      ArtifactIdsAre(manifest.manifest, id);
    }
  }

  // The code of each anchor that is asked for and does not agree.
  ghost predicate AnchorFails(policy: TrustPolicy, request: Request, manifest: LoadedManifest, code: ErrorCode) {
    var h, m := policy.handoff, manifest.manifest;
    match code
    case ExpectedManifest => ManifestExpected(policy, request) && request.expectedManifest != Some(manifest.digest)
    case ExpectedHead => HeadsExpected(policy, request) && exists d :: d in request.expectedHeads <==> d !in m.heads
    case ExpectedArtifact =>
      ArtifactsExpected(policy, request) && exists id :: id in request.expectedArtifacts <==> !NamesArtifact(m, id)
    case HandoffRecipient =>
      RecipientExpected(policy, request)
        && (request.expectedRecipient == None || request.expectedRecipient != m.recipient)
    case HandoffNonce =>
      NonceExpected(policy, request) && (request.expectedNonce == None || request.expectedNonce != m.nonce)
    case HandoffStale => h.maxAgeSeconds != None && !InTime(policy, request, m.issuedAt)
    case FreshnessRequired =>
      && !ManifestExpected(policy, request) && !HeadsExpected(policy, request) && !ArtifactsExpected(policy, request)
      && !NonceExpected(policy, request) && h.maxAgeSeconds == None && !h.allowReplayableHandoff
    case _ => false
  }

  ghost predicate IsFreshnessError(policy: TrustPolicy, request: Request, manifest: LoadedManifest, e: Diagnostic) {
    e.step == 11 && e.context == Nothing && AnchorFails(policy, request, manifest, e.code)
  }

  ghost function FreshnessErrors(policy: TrustPolicy, request: Request, manifest: LoadedManifest): iset<Diagnostic> {
    iset e | IsFreshnessError(policy, request, manifest, e)
  }

  lemma SetsDiffer(policy: TrustPolicy, request: Request, manifest: LoadedManifest)
    ensures request.expectedHeads != Elements(manifest.manifest.heads) <==>
      exists d :: d in request.expectedHeads <==> d !in manifest.manifest.heads
    ensures request.expectedArtifacts != FinalIds(manifest.manifest) <==>
      exists id :: id in request.expectedArtifacts <==> !NamesArtifact(manifest.manifest, id)
  {
    hide NamesArtifact, FinalIds;
    forall id
      ensures id in FinalIds(manifest.manifest) <==> NamesArtifact(manifest.manifest, id)
    {
      ArtifactIdsAre(manifest.manifest, id);
    }
  }

  lemma AnchorFailsIff(policy: TrustPolicy, request: Request, manifest: LoadedManifest)
    ensures AnchorFails(policy, request, manifest, ExpectedManifest) <==>
      Misses(policy, request, manifest, ExpectedManifestMethod)
    ensures AnchorFails(policy, request, manifest, ExpectedHead) <==>
      Misses(policy, request, manifest, ExpectedHeadsMethod)
    ensures AnchorFails(policy, request, manifest, ExpectedArtifact) <==>
      Misses(policy, request, manifest, ExpectedArtifactsMethod)
    ensures AnchorFails(policy, request, manifest, HandoffRecipient) <==>
      RecipientAsked(policy, request) && !RecipientRight(request, manifest.manifest)
    ensures AnchorFails(policy, request, manifest, HandoffNonce) <==> Misses(policy, request, manifest, NonceMethod)
    ensures AnchorFails(policy, request, manifest, HandoffStale) <==> Misses(policy, request, manifest, MaxAgeMethod)
    ensures AnchorFails(policy, request, manifest, FreshnessRequired) <==>
      !(exists x: Method :: Applies(policy, request, x)) && !policy.handoff.allowReplayableHandoff
  {
    hide NamesArtifact, FinalIds;
    SetsDiffer(policy, request, manifest);
    MethodsApply(policy, request);
  }

  predicate Misses(policy: TrustPolicy, request: Request, manifest: LoadedManifest, x: Method) {
    Applies(policy, request, x) && !Passes(policy, request, manifest, x)
  }

  lemma FreshnessErrorIff(policy: TrustPolicy, request: Request, manifest: LoadedManifest, e: Diagnostic)
    ensures e in AnchorErrors(policy, request, manifest) <==> IsFreshnessError(policy, request, manifest, e)
  {
    AnchorFailsIff(policy, request, manifest);
    if AnchorFails(policy, request, manifest, e.code) {
      OtherCodes(policy, request, manifest, e.code);
    }
    hide Applies, Passes, AnchorFails, RecipientAsked, RecipientRight;
    assert e == Diagnostic(e.code, e.step, e.context);
  }

  lemma OtherCodes(policy: TrustPolicy, request: Request, manifest: LoadedManifest, code: ErrorCode)
    requires AnchorFails(policy, request, manifest, code)
    ensures code in {ExpectedManifest, ExpectedHead, ExpectedArtifact, HandoffRecipient, HandoffNonce, HandoffStale,
      FreshnessRequired}
  {
  }

  lemma FreshnessErrorsAre(policy: TrustPolicy, request: Request, manifest: LoadedManifest, before: seq<Diagnostic>)
    ensures Adds(before, before + AnchorErrors(policy, request, manifest), FreshnessErrors(policy, request, manifest))
  {
    hide AnchorErrors, IsFreshnessError;
    forall e
      ensures e in AnchorErrors(policy, request, manifest) <==> IsFreshnessError(policy, request, manifest, e)
    {
      FreshnessErrorIff(policy, request, manifest, e);
    }
    AddsNothing(before);
    AddsMore(before, before, AnchorErrors(policy, request, manifest), iset{},
      FreshnessErrors(policy, request, manifest));
  }

  lemma MethodsApply(policy: TrustPolicy, request: Request)
    ensures (exists x: Method :: Applies(policy, request, x)) <==>
      || ManifestExpected(policy, request) || HeadsExpected(policy, request) || ArtifactsExpected(policy, request)
      || NonceExpected(policy, request) || policy.handoff.maxAgeSeconds != None
  {
    assert Applies(policy, request, ExpectedManifestMethod) <==> ManifestExpected(policy, request);
    assert Applies(policy, request, ExpectedHeadsMethod) <==> HeadsExpected(policy, request);
    assert Applies(policy, request, ExpectedArtifactsMethod) <==> ArtifactsExpected(policy, request);
    assert Applies(policy, request, NonceMethod) <==> NonceExpected(policy, request);
    assert Applies(policy, request, MaxAgeMethod) <==> policy.handoff.maxAgeSeconds != None;
  }

  // ---------------------------------------------------------------------
  // The whole run
  // ---------------------------------------------------------------------

  // What the run computed on the way, once the manifest was loaded.
  datatype Trace = Trace(
    records: Records, authorized: set<Digest>, candidates: Candidates, step8: Step8Result,
    graph: GraphResult, reached: set<Digest>)

  ghost predicate IsTrace(world: World, policy: TrustPolicy, request: Request, t: Trace)
    requires world.manifest.Ok?
  {
    var m := world.manifest.value.manifest;
    var handoff := HandoffAuthorized(policy, world.manifest.value.signatures, request.time);
    var w := Step8Of(world, request, m, t.records, t.authorized, handoff);
    && AreRecords(world, t.records)
    && (forall d :: d in t.authorized <==> d in t.records && IsAuthorized(world, policy, request.time, d, t.records[d]))
    && WellScoped(w) && AreCandidates(w, t.candidates) && Contributed(w, t.candidates, t.candidates.Keys, t.step8)
    && IsGraph(UsableOf(world, t), DataOf(t), t.graph)
    && IsReachable(UsableHeads(m.heads, UsableOf(world, t)), t.graph.predecessors, t.reached)
  }

  function UsableOf(world: World, t: Trace): StatementMap
    requires world.manifest.Ok?
  {
    Usable(t.records, world.manifest.value.manifest, t.authorized)
  }

  function DataOf(t: Trace): Datasets {
    Datasets(t.step8.memberships, t.step8.verifiedSubjects)
  }

  function UsableHeads(heads: seq<Digest>, usable: StatementMap): seq<Digest> {
    if heads == [] then []
    else UsableHeads(heads[..|heads| - 1], usable) + if heads[|heads| - 1] in usable then [heads[|heads| - 1]] else []
  }

  method FilterHeads(heads: seq<Digest>, usable: StatementMap) returns (r: seq<Digest>)
    ensures r == UsableHeads(heads, usable)
  {
    r := [];
    for k := 0 to |heads|
      invariant r == UsableHeads(heads[..k], usable)
    {
      assert heads[..k + 1][..k] == heads[..k];
      if heads[k] in usable {
        r := r + [heads[k]];
      }
    }
    assert heads[..|heads|] == heads;
  }

  // The errors of steps 9 to 11.
  ghost function GraphStepErrors(m: Manifest, records: Records, usable: StatementMap, handoff: bool, g: GraphResult,
          reached: set<Digest>): iset<Diagnostic>
  {
    GraphErrors(g.problems)
    + if !handoff then iset{}
      else
        FinalErrors(m.artifacts, usable, g.consumedSubjects)
        + When(!(Complete(m, records, g, reached)
                 && forall a | a in m.artifacts :: IsFinalSubject(usable, g.consumedSubjects, a)),
            Diagnostic(ManifestSet, 11, Nothing))
  }

  lemma AddsWhen(before: seq<Diagnostic>, now: seq<Diagnostic>, errors: iset<Diagnostic>, condition: bool,
          e: Diagnostic)
    requires Adds(before, now, errors)
    ensures Adds(before, now + (if condition then [e] else []), errors + When(condition, e))
  {
    AddsMore(before, now, if condition then [e] else [], errors, errors + When(condition, e));
  }

  // Steps 9 to 11 on what the earlier steps left.
  method CheckGraph(m: Manifest, records: Records, usable: StatementMap, data: Datasets, handoff: bool, report: Report)
    returns (g: GraphResult, reached: set<Digest>, eligible: set<SubjectId>)
    modifies report`errors
    ensures IsGraph(usable, data, g) && IsReachable(UsableHeads(m.heads, usable), g.predecessors, reached)
    ensures handoff ==> forall id :: id in eligible <==>
      exists a | a in m.artifacts :: IdOf(a) == id && IsFinalSubject(usable, g.consumedSubjects, a)
    ensures old(report.errors) <= report.errors
    ensures handoff ==>
      (|report.errors| == |old(report.errors)| <==>
         NoEffectiveProblem(g) && Complete(m, records, g, reached)
         && forall a | a in m.artifacts :: IsFinalSubject(usable, g.consumedSubjects, a))
    ensures Adds(old(report.errors), report.errors, GraphStepErrors(m, records, usable, handoff, g, reached))
  {
    hide IsGraph, IsReachable, IsFinalSubject, Adds, GraphErrors, FinalErrors, When;
    ghost var errors0 := report.errors;
    g := BuildGraph(usable, data);
    var heads := FilterHeads(m.heads, usable);
    var reachable := ReachableFromHeads(heads, g.predecessors);
    reached := Elements(reachable);
    RecordGraphProblems(g, report);
    ghost var errors1 := report.errors;
    eligible := {};
    assert GraphErrors(g.problems) + iset{} == GraphErrors(g.problems);
    if handoff {
      var finalSubjectsOk;
      eligible, finalSubjectsOk := FinalSubjects(m, usable, g.consumedSubjects, report);
      ghost var errors2 := report.errors;
      AddsBoth(errors0, errors1, errors2, GraphErrors(g.problems),
        FinalErrors(m.artifacts, usable, g.consumedSubjects));
      var completenessOk :=
        && records.Keys == m.statements && reached == m.statements
        && Elements(g.roots) == m.roots && Elements(m.heads) == ArtifactHeads(m) && finalSubjectsOk;
      if !completenessOk {
        report.AddError(ManifestSet, 11, Nothing);
      }
      assert errors2 + [] == errors2;
      AddsWhen(errors0, errors2, GraphErrors(g.problems) + FinalErrors(m.artifacts, usable, g.consumedSubjects),
        !completenessOk, Diagnostic(ManifestSet, 11, Nothing));
      assert GraphErrors(g.problems) + (FinalErrors(m.artifacts, usable, g.consumedSubjects)
          + When(!completenessOk, Diagnostic(ManifestSet, 11, Nothing)))
        == GraphErrors(g.problems) + FinalErrors(m.artifacts, usable, g.consumedSubjects)
          + When(!completenessOk, Diagnostic(ManifestSet, 11, Nothing));
    }
  }

  // Steps 5 to 8 found nothing wrong.
  ghost predicate EarlyOk(world: World, policy: TrustPolicy, request: Request, t: Trace)
    requires world.manifest.Ok?
  {
    var loaded := world.manifest.value;
    var handoff := HandoffAuthorized(policy, loaded.signatures, request.time);
    var w := Step8Of(world, request, loaded.manifest, t.records, t.authorized, handoff);
    && SignaturesClean(loaded.signatures) && handoff
    && t.records.Keys == world.attestations.Keys && AllClean(t.records) && t.authorized == t.records.Keys
    && (forall id :: !IsRejected(w, t.candidates, id))
    && world.metadataErrors == []
  }

  // The errors of steps 5 to 8.
  ghost function EarlyErrors(world: World, policy: TrustPolicy, request: Request, t: Trace): iset<Diagnostic>
    requires world.manifest.Ok?
  {
    var loaded := world.manifest.value;
    var handoff := HandoffAuthorized(policy, loaded.signatures, request.time);
    var w := Step8Of(world, request, loaded.manifest, t.records, t.authorized, handoff);
    SignatureErrors(loaded.signatures, loaded.digest)
    + When(!handoff, Diagnostic(SignerUnauthorized, 6, AboutStatement(loaded.digest)))
    + LoadErrors(world, world.attestations.Keys)
    + (AllRecordErrors(world, policy, request.time, t.records, t.records.Keys) + Listed(world.metadataErrors))
    + Rejections(w, t.candidates, t.candidates.Keys)
  }

  // The part of a trace that step 8 leaves.
  ghost predicate IsEarlyTrace(world: World, policy: TrustPolicy, request: Request, t: Trace)
    requires world.manifest.Ok?
  {
    var loaded := world.manifest.value;
    var handoff := HandoffAuthorized(policy, loaded.signatures, request.time);
    var w := Step8Of(world, request, loaded.manifest, t.records, t.authorized, handoff);
    && AreRecords(world, t.records)
    && (forall d :: d in t.authorized <==> d in t.records && IsAuthorized(world, policy, request.time, d, t.records[d]))
    && WellScoped(w) && AreCandidates(w, t.candidates) && Contributed(w, t.candidates, t.candidates.Keys, t.step8)
  }

  const NO_GRAPH := GraphResult([], [], [], map[], {}, [])

  method EarlySteps(world: World, policy: TrustPolicy, request: Request, report: Report)
    returns (handoff: bool, records: Records, authorized: set<Digest>, step8: Step8Result, candidates: Candidates)
    requires world.manifest.Ok? && report.errors == []
    modifies report`errors
    ensures handoff <==> HandoffAuthorized(policy, world.manifest.value.signatures, request.time)
    ensures IsEarlyTrace(world, policy, request, Trace(records, authorized, candidates, step8, NO_GRAPH, {}))
    ensures report.errors == [] <==>
      EarlyOk(world, policy, request, Trace(records, authorized, candidates, step8, NO_GRAPH, {}))
    ensures Adds([], report.errors,
      EarlyErrors(world, policy, request, Trace(records, authorized, candidates, step8, NO_GRAPH, {})))
  {
    hide Adds, SignatureErrors, When, LoadErrors, AllRecordErrors, Listed, Rejections;
    hide AreRecords, IsAuthorized, AllClean, SignaturesClean, AreCandidates, Contributed, IsRejected, HandoffAuthorized;
    var loaded := world.manifest.value;
    handoff := AuthorizeHandoff(policy, loaded.signatures, request.time);
    RecordSignatures(loaded.signatures, loaded.digest, report);
    ghost var errors1 := report.errors;
    if !handoff {
      report.AddError(SignerUnauthorized, 6, AboutStatement(loaded.digest));
    }
    ghost var errors2 := report.errors;
    records := LoadStatements(world, report);
    ghost var errors3 := report.errors;
    authorized := AuthorizeRecords(world, policy, request.time, records, report);
    ghost var errors4 := report.errors;
    var w := Step8Of(world, request, loaded.manifest, records, authorized, handoff);
    step8, candidates := Prevalidate(w, report);
    ghost var all := SignatureErrors(loaded.signatures, loaded.digest);
    assert errors1 + [] == errors1;
    AddsWhen([], errors1, all, !handoff, Diagnostic(SignerUnauthorized, 6, AboutStatement(loaded.digest)));
    all := all + When(!handoff, Diagnostic(SignerUnauthorized, 6, AboutStatement(loaded.digest)));
    AddsBoth([], errors2, errors3, all, LoadErrors(world, world.attestations.Keys));
    all := all + LoadErrors(world, world.attestations.Keys);
    AddsBoth([], errors3, errors4, all,
      AllRecordErrors(world, policy, request.time, records, records.Keys) + Listed(world.metadataErrors));
    all := all + (AllRecordErrors(world, policy, request.time, records, records.Keys) + Listed(world.metadataErrors));
    AddsBoth([], errors4, report.errors, all, Rejections(w, candidates, candidates.Keys));
  }

  // Steps 9 to 12 and the freshness anchors.
  ghost predicate LateOk(world: World, policy: TrustPolicy, request: Request, t: Trace)
    requires world.manifest.Ok?
  {
    var loaded := world.manifest.value;
    var m := loaded.manifest;
    && NoEffectiveProblem(t.graph)
    && Complete(m, t.records, t.graph, t.reached)
    && (forall a | a in m.artifacts :: IsFinalSubject(UsableOf(world, t), t.graph.consumedSubjects, a))
    && (forall a | a in m.artifacts :: BytesPresent(world, t.step8.snapshots, a))
    && Fresh(policy, request, loaded)
    && world.laterErrors == []
  }

  // Everything that an allowed run has to satisfy.
  ghost predicate Allowed(world: World, policy: TrustPolicy, request: Request, t: Trace)
    requires world.manifest.Ok?
  {
    EarlyOk(world, policy, request, t) && LateOk(world, policy, request, t)
  }

  // The errors of the remaining steps.
  ghost function LateErrors(world: World, policy: TrustPolicy, request: Request, t: Trace): iset<Diagnostic>
    requires world.manifest.Ok?
  {
    var loaded, usable := world.manifest.value, UsableOf(world, t);
    var m := loaded.manifest;
    var handoff := HandoffAuthorized(policy, loaded.signatures, request.time);
    var graphStep := GraphStepErrors(m, t.records, usable, handoff, t.graph, t.reached);
    if !handoff then graphStep + Listed(world.laterErrors)
    else
      graphStep + BytesErrors(world, m.artifacts, Eligible(m, usable, t.graph.consumedSubjects), t.step8.snapshots)
      + Listed(world.laterErrors) + FreshnessErrors(policy, request, loaded)
  }

  // The final artifacts whose bytes are looked at.
  function Eligible(m: Manifest, usable: StatementMap, consumed: set<SubjectId>): set<SubjectId> {
    set a | a in m.artifacts && IsFinalSubject(usable, consumed, a) :: IdOf(a)
  }

  // All errors of a run.
  ghost function RunErrors(world: World, policy: TrustPolicy, request: Request, t: Trace): iset<Diagnostic>
    requires world.manifest.Ok?
  {
    EarlyErrors(world, policy, request, t) + LateErrors(world, policy, request, t)
  }

  method LateSteps(world: World, policy: TrustPolicy, request: Request, handoff: bool, t0: Trace, report: Report)
    returns (t: Trace)
    requires world.manifest.Ok?
    requires handoff <==> HandoffAuthorized(policy, world.manifest.value.signatures, request.time)
    modifies report`errors
    ensures t == t0.(graph := t.graph, reached := t.reached)
    ensures IsGraph(UsableOf(world, t), DataOf(t), t.graph)
    ensures IsReachable(UsableHeads(world.manifest.value.manifest.heads, UsableOf(world, t)), t.graph.predecessors,
      t.reached)
    ensures old(report.errors) <= report.errors
    ensures handoff ==> (|report.errors| == |old(report.errors)| <==> LateOk(world, policy, request, t))
    ensures Adds(old(report.errors), report.errors, LateErrors(world, policy, request, t))
  {
    hide IsGraph, IsReachable, NoEffectiveProblem, Complete, IsFinalSubject, BytesPresent, Fresh, HandoffAuthorized;
    hide Adds, GraphStepErrors, Listed, BytesErrors, FreshnessErrors;
    ghost var errors0 := report.errors;
    var loaded := world.manifest.value;
    var m := loaded.manifest;
    var usable := Usable(t0.records, m, t0.authorized);
    var g, reached, eligible := CheckGraph(m, t0.records, usable, DataOf(t0), handoff, report);
    t := t0.(graph := g, reached := reached);
    ghost var errors1, all := report.errors, GraphStepErrors(m, t.records, usable, handoff, g, reached);
    if !handoff {
      Append(world.laterErrors, report);
      AddsListed(errors0, errors1, world.laterErrors, all);
      return;
    }
    assert eligible == Eligible(m, usable, g.consumedSubjects);
    CheckFinalBytes(world, m, eligible, t0.step8.snapshots, report);
    ghost var errors2 := report.errors;
    AddsBoth(errors0, errors1, errors2, all, BytesErrors(world, m.artifacts, eligible, t.step8.snapshots));
    all := all + BytesErrors(world, m.artifacts, eligible, t.step8.snapshots);
    Append(world.laterErrors, report);
    AddsListed(errors0, errors2, world.laterErrors, all);
    all := all + Listed(world.laterErrors);
    ghost var errors3 := report.errors;
    var methods := EvaluateFreshness(policy, request, loaded, report);
    AddsBoth(errors0, errors3, report.errors, all, FreshnessErrors(policy, request, loaded));
  }

  lemma EarlyErrorsSame(world: World, policy: TrustPolicy, request: Request, t: Trace, u: Trace)
    requires world.manifest.Ok? && u == t.(graph := u.graph, reached := u.reached)
    ensures EarlyErrors(world, policy, request, t) == EarlyErrors(world, policy, request, u)
  {
  }

  lemma AddsAll(now: seq<Diagnostic>, errors: iset<Diagnostic>)
    requires Adds([], now, errors)
    ensures forall e :: e in now <==> e in errors
  {
    assert now[0..] == now;
  }

  // `_verify_bundle`.  The ghost result is None only if the run stopped before
  // a manifest was loaded.
  method VerifyBundle(world: World, policy: TrustPolicy, request: Request)
    returns (report: Report, ghost t: Option<Trace>)
    ensures fresh(report)
    ensures world.manifest.Err? ==> t.None? && !report.allowed
    ensures world.manifest.Ok? ==> t.Some? && IsTrace(world, policy, request, t.value)
    ensures world.manifest.Ok? ==> (report.allowed <==> Allowed(world, policy, request, t.value))
    ensures world.manifest.Err? ==> report.errors == [world.manifest.error]
    ensures world.manifest.Ok? ==> forall e :: e in report.errors <==> e in RunErrors(world, policy, request, t.value)
  {
    hide Adds, EarlyErrors, LateErrors;
    hide AreRecords, IsAuthorized, AllClean, SignaturesClean, AreCandidates, Contributed, IsRejected, IsGraph,
      IsReachable, HandoffAuthorized, LateOk, WellScoped;
    report := new Report();
    t := None;
    if world.manifest.Err? {
      var error := world.manifest.error;
      report.AddError(error.code, error.step, error.context);
      report.Finalize();
      return;
    }
    var handoff, records, authorized, step8, candidates := EarlySteps(world, policy, request, report);
    ghost var early := report.errors;
    var trace := LateSteps(world, policy, request, handoff, Trace(records, authorized, candidates, step8, NO_GRAPH, {}),
      report);
    report.Finalize();
    t := Some(trace);
    EarlyErrorsSame(world, policy, request, Trace(records, authorized, candidates, step8, NO_GRAPH, {}), trace);
    AddsBoth([], early, report.errors, EarlyErrors(world, policy, request, trace),
      LateErrors(world, policy, request, trace));
    AddsAll(report.errors, RunErrors(world, policy, request, trace));
  }
}
