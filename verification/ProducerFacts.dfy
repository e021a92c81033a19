/** What the producer accepts, in the fields of the draft. */
module ProducerFacts {
  import opened Wrappers
  import opened Statements
  import opened Cycles
  import opened Graph
  import opened DatasetStep
  import opened Materials
  import opened Producer
  import opened GraphFacts
  import opened DatasetFacts

  // The artifact, or a profile of its head for it, declares this media type.
  predicate DeclaresType(ss: StatementMap, a: FinalArtifact, mediaType: string) {
    || a.mediaType == Some(mediaType)
    || (a.head in ss && exists p | p in ss[a.head].profiles ::
          p.target == ArtifactTarget && p.subjectName == a.name && p.mediaType == mediaType)
  }

  ghost predicate TypesAgree(ss: StatementMap, a: FinalArtifact) {
    forall x, y :: DeclaresType(ss, a, x) && DeclaresType(ss, a, y) ==> x == y
  }

  // A final artifact is its head's only subject of its name, no input consumes
  // it, and everything declared about its media type agrees.
  ghost predicate IsGoodFinal(ss: StatementMap, a: FinalArtifact) {
    && a.head in ss && OnlySubject(ss[a.head].subjects, a.name, a.digest)
    && (forall d, x :: !Consumes(ss, d, x, (a.head, a.name, a.digest)))
    && TypesAgree(ss, a)
  }

  lemma TypesIff(ss: StatementMap, a: FinalArtifact)
    ensures |MediaTypes(ss, a)| <= 1 <==> TypesAgree(ss, a)
  {
    forall x
      ensures x in MediaTypes(ss, a) <==> DeclaresType(ss, a, x)
    {
    }
    hide MediaTypes, DeclaresType;
    TwoElements(MediaTypes(ss, a));
  }

  lemma FinalIff(ss: StatementMap, data: Datasets, g: GraphResult, a: FinalArtifact)
    requires IsGraph(ss, data, g)
    ensures FinalOk(ss, g, a) && IsExactSubject(ss, a) <==> IsGoodFinal(ss, a)
  {
    hide IsGraph, MediaTypes, TypesAgree, OnlySubject, Named, Consumes, IsDefective, HasInput;
    GraphInFields(ss, data, g);
    TypesIff(ss, a);
    if a.head in ss {
      NamedOne(ss[a.head].subjects, a.name, a.digest);
    }
  }

  // Main result: the checks behind the collection of the materials.
  lemma {:induction false} AcceptsInFields(draft: Draft, ss: StatementMap, data: Datasets, g: GraphResult,
          reached: set<Digest>)
    requires IsGraph(ss, data, g)
    ensures Accepts(draft, ss, g, reached) <==>
      && (forall i, j | 0 <= i < j < |draft.heads| :: draft.heads[i] != draft.heads[j])
      && (forall d :: d in draft.heads <==> exists a | a in draft.finals :: a.head == d)
      && (forall a | a in draft.finals :: IsGoodFinal(ss, a))
      && IsGoodGraph(ss, data) && IsAcyclic(g.predecessors) && reached == ss.Keys
      && draft.attestations != [] && draft.finals != []
      && exists d | d in ss :: forall x :: !HasInput(ss, d, x)
  {
    hide IsGraph, IsGoodFinal, FinalOk, IsExactSubject, IsGoodGraph, IsAcyclic, IsDefective, HasInput, Consumes;
    GraphInFields(ss, data, g);
    GoodGraphHasNoProblem(ss, data, g);
    forall a | a in draft.finals
      ensures FinalOk(ss, g, a) && IsExactSubject(ss, a) <==> IsGoodFinal(ss, a)
    {
      FinalIff(ss, data, g, a);
    }
    HeadsIff(draft);
    RootsIff(g.roots);
  }

  lemma HeadsIff(draft: Draft)
    ensures Elements(draft.heads) == HeadsOf(draft.finals) <==>
      forall d :: d in draft.heads <==> exists a | a in draft.finals :: a.head == d
  {
    assert forall d :: d in Elements(draft.heads) <==> d in draft.heads;
    assert forall d :: d in HeadsOf(draft.finals) <==> exists a | a in draft.finals :: a.head == d;
  }

  lemma RootsIff(roots: seq<Digest>)
    ensures roots != [] <==> exists d :: d in roots
  {
    if roots != [] {
      assert roots[0] in roots;
    }
  }

  // ---------------------------------------------------------------------
  // Attestations and materials
  // ---------------------------------------------------------------------

  predicate DistinctDigests(attestations: seq<(Digest, Statement)>) {
    forall i, j | 0 <= i < j < |attestations| :: attestations[i].0 != attestations[j].0
  }

  lemma {:induction false} StatementsAre(attestations: seq<(Digest, Statement)>, d: Digest)
    ensures d in StatementMapOf(attestations) <==> exists k | 0 <= k < |attestations| :: attestations[k].0 == d
    ensures DistinctDigests(attestations) ==> forall k | 0 <= k < |attestations| && attestations[k].0 == d ::
      StatementMapOf(attestations)[d] == attestations[k].1
  {
    if attestations != [] {
      var front, last := attestations[..|attestations| - 1], attestations[|attestations| - 1];
      StatementsAre(front, d);
      if k :| 0 <= k < |attestations| && attestations[k].0 == d && k < |front| {
        assert front[k] == attestations[k];
      }
      if k :| 0 <= k < |front| && front[k].0 == d {
        assert attestations[k] == front[k];
      }
      assert attestations[|attestations| - 1] == last;
      assert forall k | 0 <= k < |front| :: front[k] == attestations[k];
    }
  }

  lemma {:induction false} CountIff(attestations: seq<(Digest, Statement)>)
    ensures |StatementMapOf(attestations)| <= |attestations|
    ensures |StatementMapOf(attestations)| == |attestations| <==> DistinctDigests(attestations)
  {
    if attestations != [] {
      var front, last := attestations[..|attestations| - 1], attestations[|attestations| - 1];
      var ss := StatementMapOf(front);
      CountIff(front);
      StatementsAre(front, last.0);
      MapCount(ss, last.0, last.1);
      assert DistinctDigests(attestations) <==>
        DistinctDigests(front) && forall k | 0 <= k < |front| :: front[k].0 != last.0;
    }
  }

  lemma MapCount(ss: StatementMap, d: Digest, s: Statement)
    ensures |ss[d := s]| == if d in ss then |ss| else |ss| + 1
  {
    assert ss[d := s].Keys == ss.Keys + {d};
  }

  // The bytes are those of the only subject of that name of an attested statement.
  predicate IsGoodMaterial(codec: Codec, draft: Draft, m: Material) {
    var ss := StatementMapOf(draft.attestations);
    m.statement in ss && OnlySubject(ss[m.statement].subjects, m.name, codec.hash(m.bytes))
  }

  // ... and a manifest, for which the statement has the core profile.
  predicate IsGoodManifest(codec: Codec, draft: Draft, m: Material) {
    && IsGoodMaterial(codec, draft, m)
    && codec.coreProfile(m.name) in StatementMapOf(draft.attestations)[m.statement].profiles
    && codec.parse(m.bytes) != None
  }

  predicate SameIdentity(codec: Codec, m: Material, n: Material) {
    m.statement == n.statement && m.name == n.name && codec.hash(m.bytes) == codec.hash(n.bytes)
  }

  // Main result: when the attestations and materials can be collected.
  lemma {:induction false} CollectibleInFields(codec: Codec, draft: Draft)
    ensures IsCollectible(codec, draft) <==>
      && DistinctDigests(draft.attestations)
      && (forall k | 0 <= k < |draft.attestations| :: draft.attestations[k].1.version == draft.version)
      && (forall m | m in draft.historical :: IsGoodMaterial(codec, draft, m))
      && (forall m | m in draft.manifests :: IsGoodManifest(codec, draft, m))
      && var all := draft.historical + draft.manifests;
         forall i, j | 0 <= i < j < |all| :: !SameIdentity(codec, all[i], all[j])
  {
    hide StatementMapOf, Named, OnlySubject, DistinctDigests;
    var ss := StatementMapOf(draft.attestations);
    CountIff(draft.attestations);
    forall m: Material | m.statement in ss
      ensures Named(ss[m.statement].subjects, m.name) == [Subject(m.name, codec.hash(m.bytes))] <==>
        OnlySubject(ss[m.statement].subjects, m.name, codec.hash(m.bytes))
    {
      NamedOne(ss[m.statement].subjects, m.name, codec.hash(m.bytes));
    }
    assert (forall x | x in draft.attestations :: x.1.version == draft.version) <==>
      forall k | 0 <= k < |draft.attestations| :: draft.attestations[k].1.version == draft.version;
  }

  // Main result: what the producer knows is what its manifests say.
  lemma {:induction false} KnownIff(codec: Codec, draft: Draft, e: EntryId, digest: Digest)
    requires IsCollectible(codec, draft)
    ensures var known := KnownOf(codec, draft).memberships;
      e in known && known[e] == digest <==> exists m :: SaysSo(codec, draft.manifests, m, e, digest)
  {
    hide StatementMapOf, MembershipsOf, IsSubjectBytes, IsManifestBytes, Distinct;
    var known := KnownOf(codec, draft).memberships;
    if e in known && known[e] == digest {
      var m := MembershipSource(codec, draft.manifests, e);
      assert SaysSo(codec, draft.manifests, m, e, digest);
    }
    if m :| SaysSo(codec, draft.manifests, m, e, digest) {
      MembershipHas(codec, draft.manifests, m, e);
      var other := MembershipSource(codec, draft.manifests, e);
      OneManifest(codec, draft, m, other);
    }
  }

  // A manifest gives the entry that digest.
  ghost predicate SaysSo(codec: Codec, manifests: seq<Material>, m: Material, e: EntryId, digest: Digest) {
    && m in manifests && e.0 == m.statement && e.1 == m.name && codec.parse(m.bytes).Some?
    && e.2 in codec.parse(m.bytes).value && codec.parse(m.bytes).value[e.2] == digest
  }

  lemma {:induction false} MembershipHas(codec: Codec, manifests: seq<Material>, m: Material, e: EntryId)
    requires m in manifests && e.0 == m.statement && e.1 == m.name && codec.parse(m.bytes).Some?
    requires e.2 in codec.parse(m.bytes).value
    ensures e in MembershipsOf(codec, manifests)
  {
    var front, last := manifests[..|manifests| - 1], manifests[|manifests| - 1];
    if m == last {
      assert e in EntriesOfManifest(codec, last);
    } else {
      var k :| 0 <= k < |manifests| && manifests[k] == m;
      assert front[k] == m;
      MembershipHas(codec, front, m, e);
    }
  }

  // A statement has one manifest of a name.
  lemma OneManifest(codec: Codec, draft: Draft, m: Material, n: Material)
    requires IsCollectible(codec, draft) && m in draft.manifests && n in draft.manifests
    requires m.statement == n.statement && m.name == n.name
    ensures m == n
  {
    hide StatementMapOf, Named;
    var all := draft.historical + draft.manifests;
    var ss := StatementMapOf(draft.attestations);
    assert IsManifestBytes(codec, ss, m) && IsManifestBytes(codec, ss, n);
    var i :| 0 <= i < |draft.manifests| && draft.manifests[i] == m;
    var j :| 0 <= j < |draft.manifests| && draft.manifests[j] == n;
    assert [Subject(m.name, codec.hash(m.bytes))][0] == [Subject(n.name, codec.hash(n.bytes))][0];
    assert all[|draft.historical| + i] == m && all[|draft.historical| + j] == n;
  }
}
