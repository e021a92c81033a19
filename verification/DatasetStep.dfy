/** Step 8 of the verifier: dataset manifests (src/makoto/bundle.py, `_prevalidate_dataset_manifests`). */
module DatasetStep {
  import opened Wrappers
  import opened Statements
  import opened Graph

  type Bytes = seq<nat>

  // A file of the bundle, as `_safe_read` finds it.
  datatype Reading = Content(bytes: Bytes) | Absent | Changed | Unreadable

  datatype ErrorCode =
    | EarlyFailure | StatementDigest | SignatureInvalid | SignerUnauthorized | ProfileUnresolved
    | DatasetManifestInvalid | DatasetManifestRequiredError | UnsafePath | ArtifactDigest | ArtifactMissing
    | ProfileInvalid
    | GraphError(code: Code) | ManifestSet
    | ExpectedManifest | ExpectedHead | ExpectedArtifact | HandoffRecipient | HandoffNonce | HandoffStale
    | FreshnessRequired
    | OtherError(name: string)

  datatype Context = Nothing | AboutStatement(digest: Digest) | AboutSubject(id: SubjectId)

  datatype Diagnostic = Diagnostic(code: ErrorCode, step: nat, context: Context)

  // The report; the decision is set once, at the end.
  class Report {
    var errors: seq<Diagnostic>
    var allowed: bool

    constructor ()
      ensures errors == [] && !allowed
    {
      errors, allowed := [], false;
    }

    method AddError(code: ErrorCode, step: nat, context: Context)
      modifies this`errors
      ensures errors == old(errors) + [Diagnostic(code, step, context)]
    {
      errors := errors + [Diagnostic(code, step, context)];
    }

    // The decision of finalize_report.
    method Finalize()
      modifies this`allowed
      ensures allowed <==> errors == []
    {
      allowed := errors == [];
    }
  }

  // The errors that were added between two states of the report, as a set.
  ghost predicate Adds(before: seq<Diagnostic>, after: seq<Diagnostic>, errors: iset<Diagnostic>) {
    before <= after && forall e :: e in after[|before|..] <==> e in errors
  }

  ghost function When(condition: bool, e: Diagnostic): iset<Diagnostic> {
    if condition then iset{e} else iset{}
  }

  lemma AddsNothing(before: seq<Diagnostic>)
    ensures Adds(before, before, iset{})
  {
  }

  lemma AddsMore(before: seq<Diagnostic>, now: seq<Diagnostic>, added: seq<Diagnostic>, errors: iset<Diagnostic>,
          all: iset<Diagnostic>)
    requires Adds(before, now, errors) && forall e :: e in all <==> e in errors || e in added
    ensures Adds(before, now + added, all)
  {
    assert (now + added)[|before|..] == now[|before|..] + added;
  }

  lemma AddsBoth(a: seq<Diagnostic>, b: seq<Diagnostic>, c: seq<Diagnostic>, first: iset<Diagnostic>,
          second: iset<Diagnostic>)
    requires Adds(a, b, first) && Adds(b, c, second)
    ensures Adds(a, c, first + second)
  {
    assert c[|a|..] == b[|a|..] + c[|b|..];
  }

  datatype FinalArtifact = FinalArtifact(head: Digest, name: string, digest: Digest, mediaType: Option<string>)

  // What step 8 may look at.
  datatype Step8Input = Step8Input(
    ss: StatementMap, authorized: set<Digest>, handoffAuthorized: bool,
    artifactPaths: map<SubjectId, string>, datasetEntries: set<EntryId>, finalArtifacts: seq<FinalArtifact>,
    consumerMaterials: map<SubjectId, Bytes>, consumerEntries: set<EntryId>,
    read: string -> Reading, hash: Bytes -> Digest, parse: Bytes -> Option<map<string, Digest>>,
    coreProfile: string -> Profile, manifestSchemaId: string, manifestMediaType: string)

  predicate WellScoped(w: Step8Input) {
    w.authorized <= w.ss.Keys
  }

  // The last subject of that name, as the source's dictionary keeps it.
  function LastNamed(subjects: seq<Subject>, name: string): Option<Subject> {
    if subjects == [] then None
    else if subjects[|subjects| - 1].name == name then Some(subjects[|subjects| - 1])
    else LastNamed(subjects[..|subjects| - 1], name)
  }

  function SubjectIdOf(w: Step8Input, d: Digest, name: string): Option<SubjectId>
    requires WellScoped(w)
  {
    if d !in w.authorized then None
    else
      var s := LastNamed(w.ss[d].subjects, name);
      if s.None? then None else Some((d, name, s.value.digest))
  }

  // ---------------------------------------------------------------------
  // Which subjects have to be dataset manifests
  // ---------------------------------------------------------------------

  // The subject that an input with an entry name makes a dataset manifest.
  function EdgeId(w: Step8Input, x: Input): Option<SubjectId>
    requires WellScoped(w)
  {
    if x.entryName.None? then None else SubjectIdOf(w, x.statementDigest, x.subjectName)
  }

  ghost predicate RequiredByEdge(w: Step8Input, id: SubjectId)
    requires WellScoped(w)
  {
    exists d, x | d in w.authorized && x in w.ss[d].inputs :: EdgeId(w, x) == Some(id)
  }

  ghost predicate RequiredByEntry(w: Step8Input, id: SubjectId)
    requires WellScoped(w)
  {
    w.handoffAuthorized && exists e | e in w.consumerEntries + w.datasetEntries :: SubjectIdOf(w, e.0, e.1) == Some(id)
  }

  ghost predicate IsRequired(w: Step8Input, id: SubjectId)
    requires WellScoped(w)
  {
    RequiredByEdge(w, id) || RequiredByEntry(w, id)
  }

  function ProfileSubjectId(w: Step8Input, d: Digest, p: Profile): Option<SubjectId>
    requires WellScoped(w)
  {
    if p.target.ArtifactTarget? && p.id == w.manifestSchemaId then SubjectIdOf(w, d, p.subjectName) else None
  }

  function FinalSubjectId(w: Step8Input, a: FinalArtifact): Option<SubjectId>
    requires WellScoped(w)
  {
    if a.mediaType == Some(w.manifestMediaType) then SubjectIdOf(w, a.head, a.name) else None
  }

  ghost predicate IsOptional(w: Step8Input, id: SubjectId)
    requires WellScoped(w)
  {
    || (exists d, p | d in w.authorized && p in w.ss[d].profiles ::
          ProfileSubjectId(w, d, p) == Some(id))
    || (w.handoffAuthorized && exists a | a in w.finalArtifacts ::
          FinalSubjectId(w, a) == Some(id))
  }

  // ---------------------------------------------------------------------
  // What happens to one candidate
  // ---------------------------------------------------------------------

  datatype Outcome = Rejected(code: ErrorCode, snapshot: Option<Bytes>) | Ignored
    | Accepted(material: Bytes, entries: map<string, Digest>)

  function ArtifactProfiles(profiles: seq<Profile>, name: string): set<Profile> {
    set p | p in profiles && p.target.ArtifactTarget? && p.subjectName == name
  }

  function MediaHint(artifacts: seq<FinalArtifact>, id: SubjectId): Option<string> {
    if artifacts == [] then None
    else if (artifacts[0].head, artifacts[0].name, artifacts[0].digest) == id then artifacts[0].mediaType
    else MediaHint(artifacts[1..], id)
  }

  // The bytes of a candidate: consumer material first, then the bundle file.
  function MaterialOf(w: Step8Input, id: SubjectId): Reading {
    if !w.handoffAuthorized then Absent
    else if id in w.consumerMaterials then Content(w.consumerMaterials[id])
    else if id in w.artifactPaths then w.read(w.artifactPaths[id])
    else Absent
  }

  function Judge(w: Step8Input, id: SubjectId, required: bool): Outcome
    requires id.0 in w.ss
  {
    var profiles := ArtifactProfiles(w.ss[id.0].profiles, id.1);
    if w.coreProfile(id.1) !in profiles then Rejected(DatasetManifestInvalid, None)
    else
      match MaterialOf(w, id)
      case Unreadable => Rejected(UnsafePath, None)
      case Absent => if required then Rejected(DatasetManifestRequiredError, None) else Ignored
      case Changed => if required then Rejected(UnsafePath, None) else Ignored
      case Content(bytes) =>
        var hint := MediaHint(w.finalArtifacts, id);
        var mediaTypes := (set p | p in profiles :: p.mediaType) + (if hint.Some? then {hint.value} else {});
        if w.hash(bytes) != id.2 then Rejected(ArtifactDigest, None)
        else if |mediaTypes| > 1 then Rejected(ProfileInvalid, None)
        else
          var entries := w.parse(bytes);
          if entries.None? then Rejected(DatasetManifestInvalid, Some(bytes)) else Accepted(bytes, entries.value)
  }

  type Candidates = map<SubjectId, bool>

  ghost predicate AreCandidates(w: Step8Input, c: Candidates)
    requires WellScoped(w)
  {
    && (forall id :: id in c <==> IsRequired(w, id) || IsOptional(w, id))
    && (forall id | id in c :: c[id] <==> IsRequired(w, id))
  }

  datatype Step8Result = Step8Result(
    memberships: map<EntryId, Digest>, verifiedSubjects: set<(Digest, string)>, snapshots: map<SubjectId, Bytes>)

  predicate IsAccepted(w: Step8Input, c: Candidates, id: SubjectId) {
    id in c && id.0 in w.ss && Judge(w, id, c[id]).Accepted?
  }

  predicate IsRejected(w: Step8Input, c: Candidates, id: SubjectId) {
    id in c && id.0 in w.ss && Judge(w, id, c[id]).Rejected?
  }

  // The bytes that are kept: those of every candidate that was parsed.
  function Snapshot(outcome: Outcome): Option<Bytes> {
    match outcome
    case Accepted(material, _) => Some(material)
    case Rejected(_, snapshot) => snapshot
    case Ignored => None
  }

  predicate IsKept(w: Step8Input, c: Candidates, id: SubjectId) {
    id in c && id.0 in w.ss && Snapshot(Judge(w, id, c[id])).Some?
  }

  ghost predicate EntryOf(w: Step8Input, c: Candidates, done: set<SubjectId>, e: EntryId, digest: Digest) {
    exists id | id in done && id.0 == e.0 && id.1 == e.1 ::
      IsAccepted(w, c, id) && e.2 in Judge(w, id, c[id]).entries && Judge(w, id, c[id]).entries[e.2] == digest
  }

  // The accepted manifests among `done`, and nothing else, contribute entries.
  ghost predicate Contributed(w: Step8Input, c: Candidates, done: set<SubjectId>, r: Step8Result) {
    && (forall s :: s in r.verifiedSubjects <==> exists id | id in done :: (id.0, id.1) == s && IsAccepted(w, c, id))
    && (forall id :: id in r.snapshots <==> id in done && IsKept(w, c, id))
    && (forall id | id in r.snapshots ::
          MaterialOf(w, id) == Content(r.snapshots[id]) && w.hash(r.snapshots[id]) == id.2)
    && (forall e | e in r.memberships :: EntryOf(w, c, done, e, r.memberships[e]))
    && (forall id, n | id in done && IsAccepted(w, c, id) && n in Judge(w, id, c[id]).entries ::
          (id.0, id.1, n) in r.memberships)
  }

  // ---------------------------------------------------------------------
  // Collecting the candidates
  // ---------------------------------------------------------------------

  // add_candidate: once required, always required.
  function Add(c: Candidates, id: Option<SubjectId>, required: bool): Candidates {
    if id.None? then c else c[id.value := (id.value in c && c[id.value]) || required]
  }

  ghost predicate Tracks(c: Candidates, req: set<SubjectId>, opt: set<SubjectId>) {
    c.Keys == req + opt && forall id | id in c :: c[id] <==> id in req
  }

  function AsSet(id: Option<SubjectId>): set<SubjectId> {
    if id.Some? then {id.value} else {}
  }

  lemma AddTracks(c: Candidates, req: set<SubjectId>, opt: set<SubjectId>, id: Option<SubjectId>)
    requires Tracks(c, req, opt)
    ensures Tracks(Add(c, id, true), req + AsSet(id), opt) && Tracks(Add(c, id, false), req, opt + AsSet(id))
  {
  }

  method AddEdges(w: Step8Input, d: Digest, c0: Candidates, ghost req0: set<SubjectId>, ghost opt: set<SubjectId>)
    returns (c: Candidates, ghost req: set<SubjectId>)
    requires WellScoped(w) && d in w.authorized && Tracks(c0, req0, opt)
    ensures Tracks(c, req, opt)
    ensures forall id :: id in req <==> (id in req0 || exists x | x in w.ss[d].inputs :: EdgeId(w, x) == Some(id))
  {
    hide Add;
    c, req := c0, req0;
    var inputs := w.ss[d].inputs;
    for k := 0 to |inputs|
      invariant Tracks(c, req, opt)
      invariant forall id :: id in req <==> (id in req0 || exists j | 0 <= j < k :: EdgeId(w, inputs[j]) == Some(id))
    {
      AddTracks(c, req, opt, EdgeId(w, inputs[k]));
      c := Add(c, EdgeId(w, inputs[k]), true);
      req := req + AsSet(EdgeId(w, inputs[k]));
    }
  }

  method AddProfiles(w: Step8Input, d: Digest, c0: Candidates, ghost req: set<SubjectId>, ghost opt0: set<SubjectId>)
    returns (c: Candidates, ghost opt: set<SubjectId>)
    requires WellScoped(w) && d in w.authorized && Tracks(c0, req, opt0)
    ensures Tracks(c, req, opt)
    ensures forall id :: id in opt <==>
      (id in opt0 || exists p | p in w.ss[d].profiles :: ProfileSubjectId(w, d, p) == Some(id))
  {
    hide Add;
    c, opt := c0, opt0;
    var profiles := w.ss[d].profiles;
    for k := 0 to |profiles|
      invariant Tracks(c, req, opt)
      invariant forall id :: id in opt <==>
        (id in opt0 || exists j | 0 <= j < k :: ProfileSubjectId(w, d, profiles[j]) == Some(id))
    {
      AddTracks(c, req, opt, ProfileSubjectId(w, d, profiles[k]));
      c := Add(c, ProfileSubjectId(w, d, profiles[k]), false);
      opt := opt + AsSet(ProfileSubjectId(w, d, profiles[k]));
    }
  }

  method AddEntries(w: Step8Input, entries: set<EntryId>, c0: Candidates, ghost req0: set<SubjectId>,
          ghost opt: set<SubjectId>)
    returns (c: Candidates, ghost req: set<SubjectId>)
    requires WellScoped(w) && Tracks(c0, req0, opt)
    ensures Tracks(c, req, opt)
    ensures forall id :: id in req <==> (id in req0 || exists e | e in entries :: SubjectIdOf(w, e.0, e.1) == Some(id))
  {
    hide Add;
    c, req := c0, req0;
    var rest := entries;
    while rest != {}
      invariant rest <= entries && Tracks(c, req, opt)
      invariant forall id :: id in req <==>
        (id in req0 || exists e | e in entries - rest :: SubjectIdOf(w, e.0, e.1) == Some(id))
      decreases rest
    {
      var e :| e in rest;
      var id := SubjectIdOf(w, e.0, e.1);
      AddTracks(c, req, opt, id);
      rest := rest - {e};
      c := Add(c, id, true);
      req := req + AsSet(id);
      assert e in entries - rest;
    }
  }

  method AddFinals(w: Step8Input, c0: Candidates, ghost req: set<SubjectId>, ghost opt0: set<SubjectId>)
    returns (c: Candidates, ghost opt: set<SubjectId>)
    requires WellScoped(w) && Tracks(c0, req, opt0)
    ensures Tracks(c, req, opt)
    ensures forall id :: id in opt <==>
      (id in opt0 || exists a | a in w.finalArtifacts :: FinalSubjectId(w, a) == Some(id))
  {
    hide Add;
    c, opt := c0, opt0;
    for k := 0 to |w.finalArtifacts|
      invariant Tracks(c, req, opt)
      invariant forall id :: id in opt <==>
        (id in opt0 || exists j | 0 <= j < k :: FinalSubjectId(w, w.finalArtifacts[j]) == Some(id))
    {
      AddTracks(c, req, opt, FinalSubjectId(w, w.finalArtifacts[k]));
      c := Add(c, FinalSubjectId(w, w.finalArtifacts[k]), false);
      opt := opt + AsSet(FinalSubjectId(w, w.finalArtifacts[k]));
    }
  }

  method CollectEdges(w: Step8Input) returns (c: Candidates, ghost req: set<SubjectId>)
    requires WellScoped(w)
    ensures Tracks(c, req, {}) && forall id :: id in req <==> RequiredByEdge(w, id)
  {
    hide SubjectIdOf, Tracks, EdgeId;
    c, req := map[], {};
    TracksNothing();
    var rest := w.authorized;
    while rest != {}
      invariant rest <= w.authorized && Tracks(c, req, {})
      invariant forall id :: id in req <==>
        exists d, x | d in w.authorized - rest && x in w.ss[d].inputs :: EdgeId(w, x) == Some(id)
      decreases rest
    {
      var d :| d in rest;
      rest := rest - {d};
      c, req := AddEdges(w, d, c, req, {});
    }
    assert w.authorized - {} == w.authorized;
  }

  method CollectProfiles(w: Step8Input, c0: Candidates, ghost req: set<SubjectId>)
    returns (c: Candidates, ghost opt: set<SubjectId>)
    requires WellScoped(w) && Tracks(c0, req, {})
    ensures Tracks(c, req, opt)
    ensures forall id :: id in opt <==>
      exists d, p | d in w.authorized && p in w.ss[d].profiles :: ProfileSubjectId(w, d, p) == Some(id)
  {
    hide SubjectIdOf, Tracks, ProfileSubjectId;
    c, opt := c0, {};
    var rest := w.authorized;
    while rest != {}
      invariant rest <= w.authorized && Tracks(c, req, opt)
      invariant forall id :: id in opt <==>
        exists d, p | d in w.authorized - rest && p in w.ss[d].profiles :: ProfileSubjectId(w, d, p) == Some(id)
      decreases rest
    {
      var d :| d in rest;
      rest := rest - {d};
      c, opt := AddProfiles(w, d, c, req, opt);
    }
    assert w.authorized - {} == w.authorized;
  }

  lemma TracksNothing()
    ensures Tracks(map[], {}, {})
  {
  }

  lemma TrackedAreCandidates(w: Step8Input, c: Candidates, req: set<SubjectId>, opt: set<SubjectId>)
    requires WellScoped(w) && Tracks(c, req, opt)
    requires forall id :: (id in req <==> IsRequired(w, id)) && (id in opt <==> IsOptional(w, id))
    ensures AreCandidates(w, c)
  {
    hide IsRequired, IsOptional;
  }

  method CollectCandidates(w: Step8Input) returns (c: Candidates)
    requires WellScoped(w)
    ensures AreCandidates(w, c)
  {
    hide SubjectIdOf, Tracks, RequiredByEdge, AreCandidates, ProfileSubjectId, FinalSubjectId;
    ghost var req: set<SubjectId>, opt: set<SubjectId>;
    c, req := CollectEdges(w);
    c, opt := CollectProfiles(w, c, req);
    if w.handoffAuthorized {
      c, req := AddEntries(w, w.consumerEntries, c, req, opt);
      c, req := AddEntries(w, w.datasetEntries, c, req, opt);
      c, opt := AddFinals(w, c, req, opt);
    }
    TrackedAreCandidates(w, c, req, opt);
  }

  // ---------------------------------------------------------------------
  // Checking them
  // ---------------------------------------------------------------------

  function ErrorsOf(outcome: Outcome, id: SubjectId): seq<Diagnostic> {
    if outcome.Rejected? then [Diagnostic(outcome.code, 8, AboutSubject(id))] else []
  }

  // One turn of the loop over the candidates.
  method CheckCandidate(w: Step8Input, id: SubjectId, required: bool, report: Report) returns (outcome: Outcome)
    requires id.0 in w.ss
    modifies report`errors
    ensures outcome == Judge(w, id, required)
    ensures report.errors == old(report.errors) + ErrorsOf(outcome, id)
  {
    var profiles := ArtifactProfiles(w.ss[id.0].profiles, id.1);
    if w.coreProfile(id.1) !in profiles {
      outcome := Reject(DatasetManifestInvalid, None, id, report);
      return;
    }
    var hasMapping := w.handoffAuthorized && id in w.artifactPaths;
    var hasMaterial := w.handoffAuthorized && id in w.consumerMaterials;
    if !hasMapping && !hasMaterial {
      if required {
        outcome := Reject(DatasetManifestRequiredError, None, id, report);
        return;
      }
      return Ignored;
    }
    var material: Bytes := [];
    if hasMaterial {
      material := w.consumerMaterials[id];
    } else {
      var reading := w.read(w.artifactPaths[id]);
      match reading {
        case Content(bytes) => material := bytes;
        case Unreadable => outcome := Reject(UnsafePath, None, id, report); return;
        case Absent =>
          if required { outcome := Reject(DatasetManifestRequiredError, None, id, report); return; }
          return Ignored;
        case Changed =>
          if required { outcome := Reject(UnsafePath, None, id, report); return; }
          return Ignored;
      }
    }
    if w.hash(material) != id.2 {
      outcome := Reject(ArtifactDigest, None, id, report);
      return;
    }
    var hint := MediaHint(w.finalArtifacts, id);
    var mediaTypes := (set p | p in profiles :: p.mediaType) + (if hint.Some? then {hint.value} else {});
    if |mediaTypes| > 1 {
      outcome := Reject(ProfileInvalid, None, id, report);
      return;
    }
    var entries := w.parse(material);
    if entries.None? {
      outcome := Reject(DatasetManifestInvalid, Some(material), id, report);
      return;
    }
    return Accepted(material, entries.value);
  }

  method Reject(code: ErrorCode, snapshot: Option<Bytes>, id: SubjectId, report: Report) returns (outcome: Outcome)
    modifies report`errors
    ensures outcome == Rejected(code, snapshot)
    ensures report.errors == old(report.errors) + ErrorsOf(outcome, id)
  {
    report.AddError(code, 8, AboutSubject(id));
    outcome := Rejected(code, snapshot);
  }

  function AddEntriesOf(r: Step8Result, id: SubjectId, outcome: Outcome): Step8Result {
    var snapshots := if Snapshot(outcome).Some? then r.snapshots[id := Snapshot(outcome).value] else r.snapshots;
    if outcome.Accepted? then
      Step8Result(r.memberships + (map n | n in outcome.entries :: (id.0, id.1, n) := outcome.entries[n]),
                  r.verifiedSubjects + {(id.0, id.1)}, snapshots)
    else r.(snapshots := snapshots)
  }

  lemma ContributedOneMore(w: Step8Input, c: Candidates, done: set<SubjectId>, r: Step8Result, id: SubjectId)
    requires Contributed(w, c, done, r) && id in c && id.0 in w.ss
    ensures Contributed(w, c, done + {id}, AddEntriesOf(r, id, Judge(w, id, c[id])))
  {
    hide MaterialOf, Judge, EntryOf, AddEntriesOf;
    EntriesOneMore(w, c, done, r, id);
    KeptOneMore(w, c, done, r, id);
    VerifiedOneMore(w, c, done, r, id);
  }

  lemma KeptOneMore(w: Step8Input, c: Candidates, done: set<SubjectId>, r: Step8Result, id: SubjectId)
    requires Contributed(w, c, done, r) && id in c && id.0 in w.ss
    ensures var kept := AddEntriesOf(r, id, Judge(w, id, c[id])).snapshots;
      && (forall x :: x in kept <==> x in done + {id} && IsKept(w, c, x))
      && (forall x | x in kept :: MaterialOf(w, x) == Content(kept[x]) && w.hash(kept[x]) == x.2)
  {
    hide MaterialOf, Judge, EntryOf;
    SnapshotIsMaterial(w, id, c[id]);
  }

  lemma VerifiedOneMore(w: Step8Input, c: Candidates, done: set<SubjectId>, r: Step8Result, id: SubjectId)
    requires Contributed(w, c, done, r) && id in c && id.0 in w.ss
    ensures var r' := AddEntriesOf(r, id, Judge(w, id, c[id]));
      && (forall s :: s in r'.verifiedSubjects <==>
            exists x | x in done + {id} :: (x.0, x.1) == s && IsAccepted(w, c, x))
      && (forall x, n | x in done + {id} && IsAccepted(w, c, x) && n in Judge(w, x, c[x]).entries ::
            (x.0, x.1, n) in r'.memberships)
  {
    hide MaterialOf, Judge, EntryOf, IsKept;
  }

  lemma EntriesOneMore(w: Step8Input, c: Candidates, done: set<SubjectId>, r: Step8Result, id: SubjectId)
    requires Contributed(w, c, done, r) && id in c && id.0 in w.ss
    ensures var r' := AddEntriesOf(r, id, Judge(w, id, c[id]));
      forall e | e in r'.memberships :: EntryOf(w, c, done + {id}, e, r'.memberships[e])
  {
    hide MaterialOf, Judge;
    var outcome := Judge(w, id, c[id]);
    var r' := AddEntriesOf(r, id, outcome);
    forall e | e in r'.memberships
      ensures EntryOf(w, c, done + {id}, e, r'.memberships[e])
    {
      if outcome.Accepted? && e.0 == id.0 && e.1 == id.1 && e.2 in outcome.entries {
        assert IsAccepted(w, c, id);
      } else {
        assert EntryOf(w, c, done, e, r.memberships[e]);
      }
    }
  }

  lemma SnapshotIsMaterial(w: Step8Input, id: SubjectId, required: bool)
    requires id.0 in w.ss
    ensures var snapshot := Snapshot(Judge(w, id, required));
      snapshot.Some? ==> MaterialOf(w, id) == Content(snapshot.value) && w.hash(snapshot.value) == id.2
  {
  }

  lemma CandidatesPresent(w: Step8Input, c: Candidates)
    requires WellScoped(w) && AreCandidates(w, c)
    ensures forall id | id in c :: id.0 in w.ss
  {
  }

  // One error for each rejected candidate, with the code of its rejection.
  ghost predicate IsRejection(w: Step8Input, c: Candidates, id: SubjectId, e: Diagnostic) {
    IsRejected(w, c, id) && e == Diagnostic(Judge(w, id, c[id]).code, 8, AboutSubject(id))
  }

  ghost predicate IsRejectionAmong(w: Step8Input, c: Candidates, done: set<SubjectId>, e: Diagnostic) {
    exists id | id in done :: IsRejection(w, c, id, e)
  }

  ghost function Rejections(w: Step8Input, c: Candidates, done: set<SubjectId>): iset<Diagnostic> {
    iset e | IsRejectionAmong(w, c, done, e)
  }

  lemma RejectionsOneMore(w: Step8Input, c: Candidates, done: set<SubjectId>, id: SubjectId, before: seq<Diagnostic>,
          now: seq<Diagnostic>)
    requires id in c && id.0 in w.ss && Adds(before, now, Rejections(w, c, done))
    ensures Adds(before, now + ErrorsOf(Judge(w, id, c[id]), id), Rejections(w, c, done + {id}))
  {
    hide Judge;
    var added := ErrorsOf(Judge(w, id, c[id]), id);
    forall e
      ensures e in added <==> IsRejection(w, c, id, e)
    {
    }
    AddsMore(before, now, added, Rejections(w, c, done), Rejections(w, c, done + {id}));
  }

  lemma NoRejections(w: Step8Input, c: Candidates, before: seq<Diagnostic>)
    ensures Adds(before, before, Rejections(w, c, {}))
  {
    AddsNothing(before);
    assert Rejections(w, c, {}) == iset{};
  }

  // The whole of step 8.
  method Prevalidate(w: Step8Input, report: Report) returns (r: Step8Result, c: Candidates)
    requires WellScoped(w)
    modifies report`errors
    ensures AreCandidates(w, c) && Contributed(w, c, c.Keys, r)
    ensures old(report.errors) <= report.errors
    ensures |report.errors| == |old(report.errors)| <==> forall id :: !IsRejected(w, c, id)
    ensures Adds(old(report.errors), report.errors, Rejections(w, c, c.Keys))
  {
    hide Judge, AreCandidates, AddEntriesOf, Contributed, Adds, Rejections;
    var candidates := CollectCandidates(w);
    c := candidates;
    CandidatesPresent(w, c);
    NothingContributed(w, c);
    NoRejections(w, c, report.errors);
    r := Step8Result(map[], {}, map[]);
    var rest := candidates.Keys;
    while rest != {}
      invariant rest <= candidates.Keys && Contributed(w, candidates, candidates.Keys - rest, r)
      invariant old(report.errors) <= report.errors
      invariant |report.errors| == |old(report.errors)| <==>
        forall id | id in candidates.Keys - rest :: !IsRejected(w, candidates, id)
      invariant Adds(old(report.errors), report.errors, Rejections(w, candidates, candidates.Keys - rest))
      decreases rest
    {
      var id :| id in rest;
      ghost var done := candidates.Keys - rest;
      rest := rest - {id};
      assert candidates.Keys - rest == done + {id};
      RejectionsOneMore(w, candidates, done, id, old(report.errors), report.errors);
      var outcome := CheckCandidate(w, id, candidates[id], report);
      ContributedOneMore(w, candidates, done, r, id);
      r := AddEntriesOf(r, id, outcome);
    }
    assert candidates.Keys - {} == candidates.Keys;
  }

  lemma NothingContributed(w: Step8Input, c: Candidates)
    ensures c.Keys - c.Keys == {} && Contributed(w, c, {}, Step8Result(map[], {}, map[]))
  {
  }

  // ---------------------------------------------------------------------
  // Dropping E_DATASET_MANIFEST_REQUIRED is safe
  // ---------------------------------------------------------------------

  lemma {:induction false} OneNamedIsLast(subjects: seq<Subject>, name: string)
    requires |Named(subjects, name)| == 1
    ensures LastNamed(subjects, name) == Some(Named(subjects, name)[0])
  {
    if subjects[|subjects| - 1].name != name {
      OneNamedIsLast(subjects[..|subjects| - 1], name);
    }
  }

  // A missing manifest belongs to a linked input whose subject is present and unique.
  lemma MissingManifestEdge(w: Step8Input, data: Datasets, usable: StatementMap, d: Digest) returns (x: Input)
    requires WellScoped(w) && usable.Keys <= w.authorized && forall e | e in usable :: usable[e] == w.ss[e]
    requires d in usable && HasProblem(usable, data, DatasetManifestRequired, d)
    ensures x in usable[d].inputs && x.entryName.Some? && x.statementDigest in usable
    ensures |Named(w.ss[x.statementDigest].subjects, x.subjectName)| == 1
    ensures (x.statementDigest, x.subjectName) !in data.verifiedSubjects
  {
    hide Named;
    x :| x in LinkedInputs(usable, d) && InputProblem(usable, data, x) == Some(DatasetManifestRequired);
  }

  // The identity of such a manifest is a required candidate.
  lemma ManifestIsRequired(w: Step8Input, c: Candidates, d: Digest, x: Input)
    requires WellScoped(w) && AreCandidates(w, c) && d in w.authorized && x in w.ss[d].inputs
    requires x.entryName.Some? && x.statementDigest in w.authorized
    requires |Named(w.ss[x.statementDigest].subjects, x.subjectName)| == 1
    ensures EdgeId(w, x).Some? && EdgeId(w, x).value in c && c[EdgeId(w, x).value]
    ensures EdgeId(w, x).value.0 == x.statementDigest && EdgeId(w, x).value.1 == x.subjectName
  {
    hide IsOptional, RequiredByEntry, LastNamed, Named;
    OneNamedIsLast(w.ss[x.statementDigest].subjects, x.subjectName);
    var id := EdgeId(w, x).value;
    assert RequiredByEdge(w, id);
  }

  // Every manifest that the graph misses was rejected in step 8, which has
  // recorded an error for it; so the graph's own problem may be dropped.
  lemma {:induction false} MissingManifestWasRejected(w: Step8Input, r: Step8Result, c: Candidates,
          usable: StatementMap, d: Digest)
    requires WellScoped(w) && AreCandidates(w, c) && Contributed(w, c, c.Keys, r)
    requires usable.Keys <= w.authorized && forall e | e in usable :: usable[e] == w.ss[e]
    requires d in usable && HasProblem(usable, Datasets(r.memberships, r.verifiedSubjects), DatasetManifestRequired, d)
    ensures exists x | x in usable[d].inputs ::
      EdgeId(w, x).Some? && IsRejected(w, c, EdgeId(w, x).value)
  {
    hide AreCandidates, EdgeId, HasProblem, EntryOf, Named;
    var x := MissingManifestEdge(w, Datasets(r.memberships, r.verifiedSubjects), usable, d);
    ManifestIsRequired(w, c, d, x);
    var id := EdgeId(w, x).value;
    assert !IsAccepted(w, c, id);
    assert !Judge(w, id, true).Ignored?;
  }

  // A candidate is the subject of its statement and name.
  lemma CandidateIdentity(w: Step8Input, c: Candidates, id: SubjectId)
    requires WellScoped(w) && AreCandidates(w, c) && id in c
    ensures SubjectIdOf(w, id.0, id.1) == Some(id)
  {
    hide LastNamed;
    assert IsRequired(w, id) || IsOptional(w, id);
  }
}
