/** The materials that the producer is given (src/makoto/bundle.py,
    `write_handoff_bundle`), and when step 8 accepts the manifests among them. */
module Materials {
  import opened Wrappers
  import opened Statements
  import opened Graph
  import opened DatasetStep

  // Bytes supplied for a named subject of a statement.
  datatype Material = Material(statement: Digest, name: string, bytes: Bytes)

  // Hashing, manifest parsing and the core profile of a manifest subject.
  datatype Codec = Codec(hash: Bytes -> Digest, parse: Bytes -> Option<map<string, Digest>>,
    coreProfile: string -> Profile)

  datatype MaterialError = StatementAbsent | SubjectDiffers | CoreProfileMissing | ManifestInvalid | DuplicateIdentity

  function MaterialId(codec: Codec, m: Material): SubjectId {
    (m.statement, m.name, codec.hash(m.bytes))
  }

  // The material is the statement's only subject of its name.
  predicate IsSubjectBytes(codec: Codec, ss: StatementMap, m: Material) {
    m.statement in ss && Named(ss[m.statement].subjects, m.name) == [Subject(m.name, codec.hash(m.bytes))]
  }

  // ... and a dataset manifest that declares the core profile.
  predicate IsManifestBytes(codec: Codec, ss: StatementMap, m: Material) {
    && IsSubjectBytes(codec, ss, m)
    && codec.coreProfile(m.name) in ss[m.statement].profiles && codec.parse(m.bytes).Some?
  }

  predicate Distinct(codec: Codec, ms: seq<Material>) {
    forall i, j | 0 <= i < j < |ms| :: MaterialId(codec, ms[i]) != MaterialId(codec, ms[j])
  }

  predicate MaterialsOk(codec: Codec, ss: StatementMap, historical: seq<Material>, manifests: seq<Material>) {
    && (forall m | m in historical :: IsSubjectBytes(codec, ss, m))
    && (forall m | m in manifests :: IsManifestBytes(codec, ss, m))
    && Distinct(codec, historical + manifests)
  }

  // The entries of one manifest, under its statement and subject.
  function EntriesOfManifest(codec: Codec, m: Material): map<EntryId, Digest> {
    if codec.parse(m.bytes).None? then map[]
    else map n | n in codec.parse(m.bytes).value :: (m.statement, m.name, n) := codec.parse(m.bytes).value[n]
  }

  function MembershipsOf(codec: Codec, manifests: seq<Material>): map<EntryId, Digest> {
    if manifests == [] then map[]
    else MembershipsOf(codec, manifests[..|manifests| - 1]) + EntriesOfManifest(codec, manifests[|manifests| - 1])
  }

  // ---------------------------------------------------------------------
  // Collecting them
  // ---------------------------------------------------------------------

  method CheckMaterial(codec: Codec, ss: StatementMap, m: Material, manifest: bool, seen: set<SubjectId>)
    returns (error: Option<MaterialError>)
    ensures error.None? <==>
      (if manifest then IsManifestBytes(codec, ss, m) else IsSubjectBytes(codec, ss, m))
        && MaterialId(codec, m) !in seen
  {
    if m.statement !in ss {
      return Some(StatementAbsent);
    }
    var matches := Named(ss[m.statement].subjects, m.name);
    if |matches| != 1 || matches[0].digest != codec.hash(m.bytes) {
      return Some(SubjectDiffers);
    }
    NamedAre(ss[m.statement].subjects, m.name);
    assert matches[0] in matches && matches == [matches[0]];
    if manifest {
      if codec.coreProfile(m.name) !in ss[m.statement].profiles {
        return Some(CoreProfileMissing);
      }
      if codec.parse(m.bytes).None? {
        return Some(ManifestInvalid);
      }
    }
    if MaterialId(codec, m) in seen {
      return Some(DuplicateIdentity);
    }
    return None;
  }

  ghost predicate Seen(codec: Codec, ms: seq<Material>, seen: set<SubjectId>) {
    && (forall m | m in ms :: MaterialId(codec, m) in seen)
    && (forall id | id in seen :: exists m | m in ms :: MaterialId(codec, m) == id)
  }

  lemma SeenOneMore(codec: Codec, ms: seq<Material>, seen: set<SubjectId>, m: Material)
    requires Seen(codec, ms, seen) && Distinct(codec, ms)
    ensures Seen(codec, ms + [m], seen + {MaterialId(codec, m)})
    ensures Distinct(codec, ms + [m]) <==> MaterialId(codec, m) !in seen
  {
    var more := ms + [m];
    assert forall x | x in more :: x in ms || x == m;
    assert more[|ms|] == m;
    forall id | id in seen + {MaterialId(codec, m)}
      ensures exists x | x in more :: MaterialId(codec, x) == id
    {
      if id in seen {
        var x :| x in ms && MaterialId(codec, x) == id;
        assert x in more;
      } else {
        assert m in more;
      }
    }
    if MaterialId(codec, m) in seen {
      var x :| x in ms && MaterialId(codec, x) == MaterialId(codec, m);
      var i :| 0 <= i < |ms| && ms[i] == x;
      assert more[i] == x && MaterialId(codec, more[i]) == MaterialId(codec, more[|ms|]);
    } else {
      forall i, j | 0 <= i < j < |more|
        ensures MaterialId(codec, more[i]) != MaterialId(codec, more[j])
      {
        assert more[i] == ms[i] && ms[i] in ms;
      }
    }
  }

  lemma DistinctFront(codec: Codec, a: seq<Material>, b: seq<Material>)
    requires Distinct(codec, a + b)
    ensures Distinct(codec, a)
  {
    forall i, j | 0 <= i < j < |a|
      ensures MaterialId(codec, a[i]) != MaterialId(codec, a[j])
    {
      assert (a + b)[i] == a[i] && (a + b)[j] == a[j];
    }
  }

  // The two loops over historical artifacts and dataset manifests.
  method CollectMaterials(codec: Codec, ss: StatementMap, historical: seq<Material>, manifests: seq<Material>)
    returns (r: Result<map<EntryId, Digest>, MaterialError>)
    ensures r.Ok? <==> MaterialsOk(codec, ss, historical, manifests)
    ensures r.Ok? ==> r.value == MembershipsOf(codec, manifests)
  {
    hide Seen, Distinct, IsManifestBytes, IsSubjectBytes, EntriesOfManifest;
    var seen: set<SubjectId> := {};
    NothingSeen(codec);
    for k := 0 to |historical|
      invariant Seen(codec, historical[..k], seen) && Distinct(codec, historical[..k])
      invariant forall j | 0 <= j < k :: IsSubjectBytes(codec, ss, historical[j])
    {
      assert historical[..k + 1] == historical[..k] + [historical[k]];
      SeenOneMore(codec, historical[..k], seen, historical[k]);
      var error := CheckMaterial(codec, ss, historical[k], false, seen);
      if error.Some? {
        assert historical + manifests == historical[..k + 1] + (historical[k + 1..] + manifests);
        NotDistinct(codec, historical[..k + 1], historical[k + 1..] + manifests);
        assert historical[k] in historical;
        return Err(error.value);
      }
      seen := seen + {MaterialId(codec, historical[k])};
    }
    assert historical[..|historical|] == historical && historical + manifests[..0] == historical;
    var memberships: map<EntryId, Digest> := map[];
    for k := 0 to |manifests|
      invariant Seen(codec, historical + manifests[..k], seen) && Distinct(codec, historical + manifests[..k])
      invariant forall j | 0 <= j < k :: IsManifestBytes(codec, ss, manifests[j])
      invariant memberships == MembershipsOf(codec, manifests[..k])
    {
      assert historical + manifests[..k + 1] == (historical + manifests[..k]) + [manifests[k]];
      SeenOneMore(codec, historical + manifests[..k], seen, manifests[k]);
      var error := CheckMaterial(codec, ss, manifests[k], true, seen);
      if error.Some? {
        assert historical + manifests == (historical + manifests[..k + 1]) + manifests[k + 1..];
        NotDistinct(codec, historical + manifests[..k + 1], manifests[k + 1..]);
        assert manifests[k] in manifests;
        return Err(error.value);
      }
      seen := seen + {MaterialId(codec, manifests[k])};
      assert manifests[..k + 1][..k] == manifests[..k];
      memberships := memberships + EntriesOfManifest(codec, manifests[k]);
    }
    assert manifests[..|manifests|] == manifests;
    return Ok(memberships);
  }

  lemma NothingSeen(codec: Codec)
    ensures Seen(codec, [], {}) && Distinct(codec, [])
  {
  }

  lemma NotDistinct(codec: Codec, a: seq<Material>, b: seq<Material>)
    ensures Distinct(codec, a + b) ==> Distinct(codec, a)
  {
    if Distinct(codec, a + b) {
      DistinctFront(codec, a, b);
    }
  }

  // ---------------------------------------------------------------------
  // Step 8 accepts what the producer accepted
  // ---------------------------------------------------------------------

  // The media types that the verifier collects for a subject.
  function DeclaredTypes(w: Step8Input, id: SubjectId): set<string>
    requires id.0 in w.ss
  {
    var hint := MediaHint(w.finalArtifacts, id);
    (set p | p in ArtifactProfiles(w.ss[id.0].profiles, id.1) :: p.mediaType)
      + (if hint.Some? then {hint.value} else {})
  }

  // The bundle, and the consumer if he has the material at all, hold the
  // producer's bytes.
  predicate Delivered(w: Step8Input, id: SubjectId, m: Material)
    requires id.0 in w.ss
  {
    && (id in w.consumerMaterials ==> w.consumerMaterials[id] == m.bytes)
    && id in w.artifactPaths && w.read(w.artifactPaths[id]) == Content(m.bytes)
  }

  // The core profile is an artifact profile of the manifest schema for its subject.
  predicate CoreProfileFits(w: Step8Input, name: string) {
    var p := w.coreProfile(name);
    p.target.ArtifactTarget? && p.id == w.manifestSchemaId && p.subjectName == name
  }

  ghost predicate SameCodec(codec: Codec, w: Step8Input) {
    codec.hash == w.hash && codec.parse == w.parse && codec.coreProfile == w.coreProfile
  }

  lemma ManifestIdentity(codec: Codec, w: Step8Input, m: Material)
    requires WellScoped(w) && IsSubjectBytes(codec, w.ss, m) && m.statement in w.authorized
    ensures SubjectIdOf(w, m.statement, m.name) == Some(MaterialId(codec, m))
  {
    OneNamedIsLast(w.ss[m.statement].subjects, m.name);
  }

  // Step 8 looks at a delivered manifest, and rejects it exactly when its
  // profiles and the final artifacts declare different media types.
  lemma ManifestRejectedIff(codec: Codec, w: Step8Input, c: Candidates, m: Material)
    requires WellScoped(w) && AreCandidates(w, c) && SameCodec(codec, w) && w.handoffAuthorized
    requires IsManifestBytes(codec, w.ss, m) && m.statement in w.authorized && CoreProfileFits(w, m.name)
    requires Delivered(w, MaterialId(codec, m), m)
    ensures var id := MaterialId(codec, m);
      && id in c
      && (IsRejected(w, c, id) <==> |DeclaredTypes(w, id)| > 1)
      && (!IsRejected(w, c, id) ==> Judge(w, id, c[id]) == Accepted(m.bytes, codec.parse(m.bytes).value))
  {
    hide IsRequired, LastNamed, Named;
    var id := MaterialId(codec, m);
    ManifestIdentity(codec, w, m);
    assert ProfileSubjectId(w, m.statement, w.coreProfile(m.name)) == Some(id);
    assert IsOptional(w, id);
    assert w.coreProfile(m.name) in ArtifactProfiles(w.ss[id.0].profiles, id.1);
    assert MaterialOf(w, id) == Content(m.bytes);
  }

  // An accepted manifest's entries are what step 8 knows of its subject.
  lemma {:induction false} ManifestContributes(codec: Codec, w: Step8Input, c: Candidates, r: Step8Result, m: Material,
          n: string)
    requires WellScoped(w) && AreCandidates(w, c) && Contributed(w, c, c.Keys, r) && SameCodec(codec, w)
      && w.handoffAuthorized
    requires IsManifestBytes(codec, w.ss, m) && m.statement in w.authorized && CoreProfileFits(w, m.name)
    requires Delivered(w, MaterialId(codec, m), m) && !IsRejected(w, c, MaterialId(codec, m))
    requires n in codec.parse(m.bytes).value
    ensures var e := (m.statement, m.name, n);
      e in r.memberships && r.memberships[e] == codec.parse(m.bytes).value[n]
  {
    hide AreCandidates, Judge, SubjectIdOf, Delivered, IsManifestBytes;
    var id, e := MaterialId(codec, m), (m.statement, m.name, n);
    ManifestRejectedIff(codec, w, c, m);
    assert e in r.memberships && EntryOf(w, c, c.Keys, e, r.memberships[e]);
    var other :| other in c.Keys && other.0 == e.0 && other.1 == e.1
      && IsAccepted(w, c, other) && e.2 in Judge(w, other, c[other]).entries
      && Judge(w, other, c[other]).entries[e.2] == r.memberships[e];
    CandidateIdentity(w, c, other);
    CandidateIdentity(w, c, id);
  }

  lemma {:induction false} MembershipSource(codec: Codec, manifests: seq<Material>, e: EntryId) returns (m: Material)
    requires e in MembershipsOf(codec, manifests)
    ensures m in manifests && e.0 == m.statement && e.1 == m.name && codec.parse(m.bytes).Some?
    ensures e.2 in codec.parse(m.bytes).value && codec.parse(m.bytes).value[e.2] == MembershipsOf(codec, manifests)[e]
  {
    var last := manifests[|manifests| - 1];
    if e in EntriesOfManifest(codec, last) {
      m := last;
    } else {
      m := MembershipSource(codec, manifests[..|manifests| - 1], e);
    }
  }

  // What the producer's manifests say, step 8 knows if it rejects none of them.
  lemma {:induction false} Step8Knows(codec: Codec, w: Step8Input, c: Candidates, r: Step8Result,
          manifests: seq<Material>)
    requires WellScoped(w) && AreCandidates(w, c) && Contributed(w, c, c.Keys, r) && SameCodec(codec, w)
      && w.handoffAuthorized
    requires forall m | m in manifests ::
      IsManifestBytes(codec, w.ss, m) && m.statement in w.authorized && CoreProfileFits(w, m.name)
      && Delivered(w, MaterialId(codec, m), m) && !IsRejected(w, c, MaterialId(codec, m))
    ensures forall e | e in MembershipsOf(codec, manifests) ::
      e in r.memberships && r.memberships[e] == MembershipsOf(codec, manifests)[e]
  {
    hide AreCandidates, Contributed, IsManifestBytes, Delivered, CoreProfileFits, IsRejected, EntriesOfManifest,
      MembershipsOf;
    forall e | e in MembershipsOf(codec, manifests)
      ensures e in r.memberships && r.memberships[e] == MembershipsOf(codec, manifests)[e]
    {
      var m := MembershipSource(codec, manifests, e);
      ManifestContributes(codec, w, c, r, m, e.2);
    }
  }
}
