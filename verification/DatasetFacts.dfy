/** Step 8 in the fields of the statements and the bundle: which subjects have to
    be dataset manifests, and what becomes of each. */
module DatasetFacts {
  import opened Wrappers
  import opened Statements
  import opened DatasetStep

  // ---------------------------------------------------------------------
  // Candidates
  // ---------------------------------------------------------------------

  // The last subject of that name.
  predicate IsLastAt(subjects: seq<Subject>, k: nat, name: string) {
    k < |subjects| && subjects[k].name == name && forall j | k < j < |subjects| :: subjects[j].name != name
  }

  // The identity of the last subject of that name of an authorized statement.
  predicate IsIdentity(w: Step8Input, d: Digest, name: string, id: SubjectId) {
    && d in w.authorized && d in w.ss && id.0 == d && id.1 == name
    && exists k: nat | k < |w.ss[d].subjects| ::
          IsLastAt(w.ss[d].subjects, k, name) && w.ss[d].subjects[k].digest == id.2
  }

  // An input names an entry of it, or an entry of it is supplied.
  ghost predicate MustBeManifest(w: Step8Input, id: SubjectId) {
    || (exists d, x | d in w.authorized && d in w.ss && x in w.ss[d].inputs ::
          x.entryName != None && IsIdentity(w, x.statementDigest, x.subjectName, id))
    || (w.handoffAuthorized
        && exists e | e in w.consumerEntries || e in w.datasetEntries :: IsIdentity(w, e.0, e.1, id))
  }

  // A profile or a final artifact says that it is one.
  ghost predicate MayBeManifest(w: Step8Input, id: SubjectId) {
    || (exists d, p | d in w.authorized && d in w.ss && p in w.ss[d].profiles ::
          p.target == ArtifactTarget && p.id == w.manifestSchemaId && IsIdentity(w, d, p.subjectName, id))
    || (w.handoffAuthorized
        && exists a | a in w.finalArtifacts ::
              a.mediaType == Some(w.manifestMediaType) && IsIdentity(w, a.head, a.name, id))
  }

  lemma {:induction false} LastNamedAt(subjects: seq<Subject>, name: string) returns (k: nat)
    requires LastNamed(subjects, name).Some?
    ensures IsLastAt(subjects, k, name) && subjects[k] == LastNamed(subjects, name).value
  {
    if subjects[|subjects| - 1].name == name {
      k := |subjects| - 1;
    } else {
      k := LastNamedAt(subjects[..|subjects| - 1], name);
    }
  }

  lemma {:induction false} LastNamedIs(subjects: seq<Subject>, name: string, k: nat)
    requires IsLastAt(subjects, k, name)
    ensures LastNamed(subjects, name) == Some(subjects[k])
    decreases |subjects|
  {
    if k < |subjects| - 1 {
      assert subjects[|subjects| - 1].name != name;
      LastNamedIs(subjects[..|subjects| - 1], name, k);
    }
  }

  lemma IdentityIff(w: Step8Input, d: Digest, name: string, id: SubjectId)
    requires WellScoped(w)
    ensures SubjectIdOf(w, d, name) == Some(id) <==> IsIdentity(w, d, name, id)
  {
    hide LastNamed, IsLastAt;
    if d in w.authorized {
      var subjects := w.ss[d].subjects;
      if LastNamed(subjects, name).Some? {
        var k := LastNamedAt(subjects, name);
      }
      if IsIdentity(w, d, name, id) {
        var k: nat :| k < |subjects| && IsLastAt(subjects, k, name) && subjects[k].digest == id.2;
        LastNamedIs(subjects, name, k);
      }
    }
  }

  // Main result: the candidates of step 8.
  lemma CandidatesIff(w: Step8Input, id: SubjectId)
    requires WellScoped(w)
    ensures IsRequired(w, id) <==> MustBeManifest(w, id)
    ensures IsOptional(w, id) <==> MayBeManifest(w, id)
  {
    hide IsIdentity, SubjectIdOf;
    forall d, name
      ensures SubjectIdOf(w, d, name) == Some(id) <==> IsIdentity(w, d, name, id)
    {
      IdentityIff(w, d, name, id);
    }
    forall x
      ensures EdgeId(w, x) == Some(id) <==> x.entryName != None && IsIdentity(w, x.statementDigest, x.subjectName, id)
    {
    }
    forall d, p
      ensures ProfileSubjectId(w, d, p) == Some(id) <==>
        p.target == ArtifactTarget && p.id == w.manifestSchemaId && IsIdentity(w, d, p.subjectName, id)
    {
    }
    forall a
      ensures FinalSubjectId(w, a) == Some(id) <==>
        a.mediaType == Some(w.manifestMediaType) && IsIdentity(w, a.head, a.name, id)
    {
    }
    hide EdgeId, ProfileSubjectId, FinalSubjectId;
  }

  // ---------------------------------------------------------------------
  // Outcomes
  // ---------------------------------------------------------------------

  // The statement has the core profile for this subject.
  predicate DeclaresCore(w: Step8Input, id: SubjectId)
    requires id.0 in w.ss
  {
    var core := w.coreProfile(id.1);
    core in w.ss[id.0].profiles && core.target == ArtifactTarget && core.subjectName == id.1
  }

  // The statement's profiles for the subject, and the first final artifact with
  // its identity, declare this media type.
  predicate Declares(w: Step8Input, id: SubjectId, mediaType: string)
    requires id.0 in w.ss
  {
    || (exists p | p in w.ss[id.0].profiles ::
          p.target == ArtifactTarget && p.subjectName == id.1 && p.mediaType == mediaType)
    || (exists k: nat | k < |w.finalArtifacts| ::
          IsFirstFor(w.finalArtifacts, k, id) && w.finalArtifacts[k].mediaType == Some(mediaType))
  }

  predicate IsFirstFor(artifacts: seq<FinalArtifact>, k: nat, id: SubjectId) {
    k < |artifacts| && IsFor(artifacts[k], id) && forall j | 0 <= j < k :: !IsFor(artifacts[j], id)
  }

  predicate IsFor(a: FinalArtifact, id: SubjectId) {
    a.head == id.0 && a.name == id.1 && a.digest == id.2
  }

  ghost predicate MediaTypesConflict(w: Step8Input, id: SubjectId)
    requires id.0 in w.ss
  {
    exists a, b :: a != b && Declares(w, id, a) && Declares(w, id, b)
  }

  // What the verifier gets to read: only once the handoff is authorized, and
  // from the consumer first.
  predicate Reads(w: Step8Input, id: SubjectId, reading: Reading) {
    if !w.handoffAuthorized then reading == Absent
    else if id in w.consumerMaterials then reading == Content(w.consumerMaterials[id])
    else if id in w.artifactPaths then reading == w.read(w.artifactPaths[id])
    else reading == Absent
  }

  lemma {:induction false} HintAt(artifacts: seq<FinalArtifact>, id: SubjectId) returns (k: nat)
    requires MediaHint(artifacts, id).Some?
    ensures IsFirstFor(artifacts, k, id) && artifacts[k].mediaType == MediaHint(artifacts, id)
  {
    if IsFor(artifacts[0], id) {
      k := 0;
    } else {
      k := HintAt(artifacts[1..], id);
      k := k + 1;
    }
  }

  lemma {:induction false} HintIs(artifacts: seq<FinalArtifact>, k: nat, id: SubjectId)
    requires IsFirstFor(artifacts, k, id)
    ensures MediaHint(artifacts, id) == artifacts[k].mediaType
    decreases k
  {
    if k > 0 {
      assert !IsFor(artifacts[0], id);
      HintIs(artifacts[1..], k - 1, id);
    }
  }

  function MediaTypesOf(w: Step8Input, id: SubjectId): set<string>
    requires id.0 in w.ss
  {
    var hint := MediaHint(w.finalArtifacts, id);
    (set p | p in ArtifactProfiles(w.ss[id.0].profiles, id.1) :: p.mediaType)
      + (if hint.Some? then {hint.value} else {})
  }

  lemma DeclaresIff(w: Step8Input, id: SubjectId, mediaType: string)
    requires id.0 in w.ss
    ensures mediaType in MediaTypesOf(w, id) <==> Declares(w, id, mediaType)
  {
    hide MediaHint, IsFirstFor;
    if MediaHint(w.finalArtifacts, id).Some? {
      var k := HintAt(w.finalArtifacts, id);
    }
    if k: nat :| k < |w.finalArtifacts| && IsFirstFor(w.finalArtifacts, k, id) {
      HintIs(w.finalArtifacts, k, id);
    }
    forall k: nat | k < |w.finalArtifacts| && IsFirstFor(w.finalArtifacts, k, id)
      ensures MediaHint(w.finalArtifacts, id) == w.finalArtifacts[k].mediaType
    {
      HintIs(w.finalArtifacts, k, id);
    }
  }

  lemma TwoElements(s: set<string>)
    ensures |s| > 1 <==> exists a, b :: a != b && a in s && b in s
  {
    if s != {} {
      var a :| a in s;
      var rest := s - {a};
      if rest != {} {
        var b :| b in rest;
        assert a != b && b in s && |rest| == |s| - 1;
      } else {
        assert s == {a};
      }
    }
  }

  lemma ConflictIff(w: Step8Input, id: SubjectId)
    requires id.0 in w.ss
    ensures |MediaTypesOf(w, id)| > 1 <==> MediaTypesConflict(w, id)
  {
    hide MediaTypesOf, Declares;
    forall mediaType
      ensures mediaType in MediaTypesOf(w, id) <==> Declares(w, id, mediaType)
    {
      DeclaresIff(w, id, mediaType);
    }
    TwoElements(MediaTypesOf(w, id));
  }

  ghost function OutcomeOf(w: Step8Input, id: SubjectId, required: bool, reading: Reading): Outcome
    requires id.0 in w.ss
  {
    if !DeclaresCore(w, id) then Rejected(DatasetManifestInvalid, None)
    else if reading == Unreadable then Rejected(UnsafePath, None)
    else if reading == Changed && required then Rejected(UnsafePath, None)
    else if reading == Absent && required then Rejected(DatasetManifestRequiredError, None)
    else if reading == Changed || reading == Absent then Ignored
    else if w.hash(reading.bytes) != id.2 then Rejected(ArtifactDigest, None)
    else if MediaTypesConflict(w, id) then Rejected(ProfileInvalid, None)
    else if w.parse(reading.bytes) == None then Rejected(DatasetManifestInvalid, Some(reading.bytes))
    else Accepted(reading.bytes, w.parse(reading.bytes).value)
  }

  lemma ReadIs(w: Step8Input, id: SubjectId, reading: Reading)
    requires Reads(w, id, reading)
    ensures MaterialOf(w, id) == reading
  {
  }

  // Main result: what becomes of a candidate, by what is read for it.
  lemma OutcomeIs(w: Step8Input, id: SubjectId, required: bool, reading: Reading)
    requires id.0 in w.ss && Reads(w, id, reading)
    ensures Judge(w, id, required) == OutcomeOf(w, id, required, reading)
  {
    ConflictIff(w, id);
    ReadIs(w, id, reading);
    assert w.coreProfile(id.1) in ArtifactProfiles(w.ss[id.0].profiles, id.1) <==> DeclaresCore(w, id);
    hide MediaTypesConflict, MediaHint, ArtifactProfiles, DeclaresCore, Reads, MaterialOf;
  }

  // ---------------------------------------------------------------------
  // The whole step
  // ---------------------------------------------------------------------

  ghost predicate IsLookedAt(w: Step8Input, id: SubjectId) {
    MustBeManifest(w, id) || MayBeManifest(w, id)
  }

  // The bytes are read for the subject and pass every check up to their parsing.
  ghost predicate IsParsed(w: Step8Input, id: SubjectId, bytes: Bytes)
    requires id.0 in w.ss
  {
    DeclaresCore(w, id) && Reads(w, id, Content(bytes)) && w.hash(bytes) == id.2 && !MediaTypesConflict(w, id)
  }

  ghost predicate IsKeptAs(w: Step8Input, id: SubjectId, bytes: Bytes) {
    IsLookedAt(w, id) && id.0 in w.ss && IsParsed(w, id, bytes)
  }

  // ... and they are a manifest.
  ghost predicate IsUsable(w: Step8Input, id: SubjectId, bytes: Bytes)
    requires id.0 in w.ss
  {
    IsParsed(w, id, bytes) && w.parse(bytes) != None
  }

  // The bytes of a usable manifest say that the entry has this digest.
  ghost predicate Says(w: Step8Input, id: SubjectId, bytes: Bytes, e: EntryId, digest: Digest) {
    && IsLookedAt(w, id) && id.0 in w.ss && id.0 == e.0 && id.1 == e.1 && IsUsable(w, id, bytes)
    && e.2 in w.parse(bytes).value && w.parse(bytes).value[e.2] == digest
  }

  ghost predicate IsRecorded(w: Step8Input, e: EntryId, digest: Digest) {
    exists id, bytes :: Says(w, id, bytes, e, digest)
  }

  // Nothing is supplied for a subject that nothing needs.
  ghost predicate IsDispensable(w: Step8Input, id: SubjectId)
    requires id.0 in w.ss
  {
    && DeclaresCore(w, id) && !MustBeManifest(w, id) && (Reads(w, id, Absent) || Reads(w, id, Changed))
  }

  lemma UsableIff(w: Step8Input, c: Candidates, id: SubjectId)
    requires WellScoped(w) && AreCandidates(w, c) && id in c && id.0 in w.ss
    ensures Judge(w, id, c[id]).Accepted? <==> exists bytes :: IsUsable(w, id, bytes)
    ensures forall bytes | IsUsable(w, id, bytes) :: Judge(w, id, c[id]) == Accepted(bytes, w.parse(bytes).value)
    ensures Judge(w, id, c[id]).Ignored? <==> IsDispensable(w, id)
  {
    hide IsRequired, IsOptional, MustBeManifest, DeclaresCore, MediaTypesConflict, Judge, MaterialOf;
    CandidatesIff(w, id);
    var reading := MaterialOf(w, id);
    assert Reads(w, id, reading) by { WhatIsRead(w, id); }
    OutcomeIs(w, id, c[id], reading);
    forall other | Reads(w, id, other) ensures other == reading {
    }
    if reading.Content? && Judge(w, id, c[id]).Accepted? {
      assert IsUsable(w, id, reading.bytes);
    }
  }

  lemma WhatIsRead(w: Step8Input, id: SubjectId)
    ensures Reads(w, id, MaterialOf(w, id))
  {
  }

  // Main result: what step 8 rejects, and what it knows afterwards.
  lemma {:induction false} Step8InFields(w: Step8Input, c: Candidates, r: Step8Result)
    requires WellScoped(w) && AreCandidates(w, c) && Contributed(w, c, c.Keys, r)
    ensures forall id :: IsRejected(w, c, id) <==>
      IsLookedAt(w, id) && id.0 in w.ss && !IsDispensable(w, id) && forall bytes :: !IsUsable(w, id, bytes)
    ensures forall s :: s in r.verifiedSubjects <==> exists id, bytes ::
      IsLookedAt(w, id) && id.0 in w.ss && (id.0, id.1) == s && IsUsable(w, id, bytes)
    ensures forall e, digest :: e in r.memberships && r.memberships[e] == digest <==> IsRecorded(w, e, digest)
    ensures forall id, bytes :: id in r.snapshots && r.snapshots[id] == bytes <==>
      IsKeptAs(w, id, bytes)
  {
    forall id, bytes
      ensures id in r.snapshots && r.snapshots[id] == bytes <==>
        IsKeptAs(w, id, bytes)
    {
      KeptIff(w, c, r, id, bytes);
    }
    hide Judge, IsUsable, IsKeptAs, IsDispensable, MustBeManifest, MayBeManifest, IsRequired, IsOptional;
    forall id
      ensures id in c <==> IsLookedAt(w, id)
    {
      CandidatesIff(w, id);
    }
    forall id | id in c && id.0 in w.ss
      ensures Judge(w, id, c[id]).Accepted? <==> exists bytes :: IsUsable(w, id, bytes)
      ensures Judge(w, id, c[id]).Ignored? <==> IsDispensable(w, id)
    {
      UsableIff(w, c, id);
    }
    CandidatesPresent(w, c);
    hide AreCandidates, IsLookedAt;
    forall e, digest
      ensures e in r.memberships && r.memberships[e] == digest <==> IsRecorded(w, e, digest)
    {
      MembershipIff(w, c, r, e, digest);
    }
  }

  lemma {:induction false} MembershipIff(w: Step8Input, c: Candidates, r: Step8Result, e: EntryId, digest: Digest)
    requires WellScoped(w) && AreCandidates(w, c) && Contributed(w, c, c.Keys, r)
    ensures e in r.memberships && r.memberships[e] == digest <==> IsRecorded(w, e, digest)
  {
    hide Judge, IsUsable, IsDispensable, IsLookedAt, AreCandidates;
    if e in r.memberships && r.memberships[e] == digest {
      assert EntryOf(w, c, c.Keys, e, digest);
      var id :| id in c.Keys && id.0 == e.0 && id.1 == e.1 && IsAccepted(w, c, id)
        && e.2 in Judge(w, id, c[id]).entries && Judge(w, id, c[id]).entries[e.2] == digest;
      UsableIff(w, c, id);
      CandidateIsLookedAt(w, c, id);
      var bytes :| IsUsable(w, id, bytes);
      UsableHasEntries(w, id, bytes);
      assert Says(w, id, bytes, e, digest);
    }
    if id, bytes :| Says(w, id, bytes, e, digest) {
      CandidateIsLookedAt(w, c, id);
      UsableIff(w, c, id);
      assert (id.0, id.1, e.2) in r.memberships;
      assert EntryOf(w, c, c.Keys, e, r.memberships[e]);
      var other :| other in c.Keys && other.0 == e.0 && other.1 == e.1 && IsAccepted(w, c, other)
        && e.2 in Judge(w, other, c[other]).entries && Judge(w, other, c[other]).entries[e.2] == r.memberships[e];
      OneCandidate(w, c, id, other);
    }
  }

  lemma {:induction false} KeptIff(w: Step8Input, c: Candidates, r: Step8Result, id: SubjectId, bytes: Bytes)
    requires WellScoped(w) && AreCandidates(w, c) && Contributed(w, c, c.Keys, r)
    ensures id in r.snapshots && r.snapshots[id] == bytes <==>
      IsKeptAs(w, id, bytes)
  {
    hide IsLookedAt, AreCandidates, DeclaresCore, MediaTypesConflict, Judge, MaterialOf, EntryOf;
    CandidateIsLookedAt(w, c, id);
    CandidatesPresent(w, c);
    if id in c {
      var reading := MaterialOf(w, id);
      assert Reads(w, id, reading) by { WhatIsRead(w, id); }
      OutcomeIs(w, id, c[id], reading);
    }
  }

  lemma CandidateIsLookedAt(w: Step8Input, c: Candidates, id: SubjectId)
    requires WellScoped(w) && AreCandidates(w, c)
    ensures id in c <==> IsLookedAt(w, id)
  {
    CandidatesIff(w, id);
  }

  lemma UsableHasEntries(w: Step8Input, id: SubjectId, bytes: Bytes)
    requires id.0 in w.ss && IsUsable(w, id, bytes)
    ensures w.parse(bytes).Some?
  {
  }

  // A statement has one candidate of a name.
  lemma OneCandidate(w: Step8Input, c: Candidates, id: SubjectId, other: SubjectId)
    requires WellScoped(w) && AreCandidates(w, c) && id in c && other in c && id.0 == other.0 && id.1 == other.1
    ensures id == other
  {
    hide LastNamed;
    CandidateIdentity(w, c, id);
    CandidateIdentity(w, c, other);
  }
}
