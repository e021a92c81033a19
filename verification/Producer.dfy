/** The producer's side (src/makoto/bundle.py, `write_handoff_bundle`). */
module Producer {
  import opened Wrappers
  import opened Statements
  import opened Cycles
  import opened Graph
  import opened DatasetStep
  import opened Verifier
  import opened Materials

  datatype ProducerError =
    | DuplicateStatements | MixedVersions | DuplicateHeads | HeadsDifferFromFinals
    | FinalConsumed | MediaTypeConflict | NotReachableValidGraph | EmptyHandoff | SubjectMismatch
    | BadMaterial(error: MaterialError)

  datatype Draft = Draft(
    attestations: seq<(Digest, Statement)>, version: Version, historical: seq<Material>, manifests: seq<Material>,
    heads: seq<Digest>, finals: seq<FinalArtifact>, bytes: map<SubjectId, Bytes>,
    recipient: Option<string>, nonce: Option<string>, issuedAt: int)

  function StatementMapOf(attestations: seq<(Digest, Statement)>): StatementMap {
    if attestations == [] then map[]
    else
      var last := attestations[|attestations| - 1];
      StatementMapOf(attestations[..|attestations| - 1])[last.0 := last.1]
  }

  function HeadsOf(finals: seq<FinalArtifact>): set<Digest> {
    set a | a in finals :: a.head
  }

  predicate DistinctHeads(heads: seq<Digest>) {
    forall i, j | 0 <= i < j < |heads| :: heads[i] != heads[j]
  }

  // The media types that a head's profiles and the artifact itself declare.
  function MediaTypes(ss: StatementMap, a: FinalArtifact): set<string> {
    (if a.head in ss then set p | p in ArtifactProfiles(ss[a.head].profiles, a.name) :: p.mediaType else {})
    + (if a.mediaType.Some? then {a.mediaType.value} else {})
  }

  // The final artifact is the head's only subject of its name.
  predicate IsExactSubject(ss: StatementMap, a: FinalArtifact) {
    a.head in ss && Named(ss[a.head].subjects, a.name) == [Subject(a.name, a.digest)]
  }

  predicate FinalOk(ss: StatementMap, g: GraphResult, a: FinalArtifact) {
    IdOf(a) !in g.consumedSubjects && |MediaTypes(ss, a)| <= 1
  }

  // The statements and materials can be collected.
  predicate IsCollectible(codec: Codec, draft: Draft) {
    var ss := StatementMapOf(draft.attestations);
    && |ss| == |draft.attestations| && (forall x | x in draft.attestations :: x.1.version == draft.version)
    && MaterialsOk(codec, ss, draft.historical, draft.manifests)
  }

  // What the producer then knows of the datasets.
  function KnownOf(codec: Codec, draft: Draft): Datasets {
    Datasets(MembershipsOf(codec, draft.manifests), {})
  }

  // The graph and the final artifacts pass the remaining checks.
  ghost predicate Accepts(draft: Draft, ss: StatementMap, g: GraphResult, reached: set<Digest>) {
    && DistinctHeads(draft.heads) && Elements(draft.heads) == HeadsOf(draft.finals)
    && (forall a | a in draft.finals :: FinalOk(ss, g, a))
    && g.problems == [] && reached == ss.Keys
    && draft.attestations != [] && g.roots != [] && draft.finals != []
    && (forall a | a in draft.finals :: IsExactSubject(ss, a))
  }

  // The signed manifest, with its sorted sets.
  ghost predicate IsManifest(draft: Draft, ss: StatementMap, g: GraphResult, m: Manifest) {
    && m.statements == ss.Keys && m.roots == Elements(g.roots)
    && Elements(m.heads) == HeadsOf(draft.finals) && Ascending(m.heads)
    && m.artifacts == draft.finals
    && m.recipient == draft.recipient && m.nonce == draft.nonce && m.issuedAt == draft.issuedAt
  }

  method BuildStatementMap(attestations: seq<(Digest, Statement)>) returns (ss: StatementMap)
    ensures ss == StatementMapOf(attestations)
  {
    ss := map[];
    for k := 0 to |attestations|
      invariant ss == StatementMapOf(attestations[..k])
    {
      assert attestations[..k + 1][..k] == attestations[..k];
      ss := ss[attestations[k].0 := attestations[k].1];
    }
    assert attestations[..|attestations|] == attestations;
  }

  method CheckFinals(ss: StatementMap, g: GraphResult, finals: seq<FinalArtifact>)
    returns (error: Option<ProducerError>)
    ensures error.None? <==> forall a | a in finals :: FinalOk(ss, g, a)
  {
    for k := 0 to |finals|
      invariant forall j | 0 <= j < k :: FinalOk(ss, g, finals[j])
    {
      assert finals[k] in finals;
      if IdOf(finals[k]) in g.consumedSubjects {
        return Some(FinalConsumed);
      }
      if |MediaTypes(ss, finals[k])| > 1 {
        return Some(MediaTypeConflict);
      }
    }
    return None;
  }

  method CheckSubjects(ss: StatementMap, finals: seq<FinalArtifact>) returns (ok: bool)
    ensures ok <==> forall a | a in finals :: IsExactSubject(ss, a)
  {
    for k := 0 to |finals|
      invariant forall j | 0 <= j < k :: IsExactSubject(ss, finals[j])
    {
      if !IsExactSubject(ss, finals[k]) {
        return false;
      }
    }
    return true;
  }

  // The checks of write_handoff_bundle, and the manifest of create_handoff.
  method PrepareHandoff(codec: Codec, draft: Draft)
    returns (r: Result<Manifest, ProducerError>, ghost g: GraphResult, ghost reached: set<Digest>)
    ensures !IsCollectible(codec, draft) ==> r.Err?
    ensures IsCollectible(codec, draft) ==>
      var ss := StatementMapOf(draft.attestations);
      && IsGraph(ss, KnownOf(codec, draft), g)
      && IsReachable(draft.heads, g.predecessors, reached)
      && (r.Ok? <==> Accepts(draft, ss, g, reached))
      && (r.Ok? ==> IsManifest(draft, ss, g, r.value))
  {
    hide IsGraph, IsReachable, FinalOk, IsExactSubject, MaterialsOk, MembershipsOf;
    g, reached := NO_GRAPH, {};
    var ss := BuildStatementMap(draft.attestations);
    if |ss| != |draft.attestations| {
      return Err(DuplicateStatements), g, reached;
    }
    if exists x | x in draft.attestations :: x.1.version != draft.version {
      return Err(MixedVersions), g, reached;
    }
    var known := CollectMaterials(codec, ss, draft.historical, draft.manifests);
    if known.Err? {
      return Err(BadMaterial(known.error)), g, reached;
    }
    var graph := BuildGraph(ss, Datasets(known.value, {}));
    var reachable := ReachableFromHeads(draft.heads, graph.predecessors);
    g, reached := graph, Elements(reachable);
    if !DistinctHeads(draft.heads) {
      return Err(DuplicateHeads), g, reached;
    }
    if Elements(draft.heads) != HeadsOf(draft.finals) {
      return Err(HeadsDifferFromFinals), g, reached;
    }
    var error := CheckFinals(ss, graph, draft.finals);
    if error.Some? {
      return Err(error.value), g, reached;
    }
    if graph.problems != [] || Elements(reachable) != ss.Keys {
      return Err(NotReachableValidGraph), g, reached;
    }
    if draft.attestations == [] || graph.roots == [] || draft.finals == [] {
      return Err(EmptyHandoff), g, reached;
    }
    var ok := CheckSubjects(ss, draft.finals);
    if !ok {
      return Err(SubjectMismatch), g, reached;
    }
    var heads := Sorted(HeadsOf(draft.finals));
    var m := Manifest(ss.Keys, Elements(graph.roots), heads, draft.finals, draft.recipient, draft.nonce,
      draft.issuedAt);
    return Ok(m), g, reached;
  }

  // ---------------------------------------------------------------------
  // Graphs of the same statements agree
  // ---------------------------------------------------------------------

  lemma {:induction false} SamePredecessors(ss: StatementMap, p: Predecessors, q: Predecessors)
    requires RightPredecessors(ss, p) && RightPredecessors(ss, q)
    ensures p == q
  {
    forall d | d in ss ensures p[d] == q[d] {
      AscendingUnique(p[d], q[d]);
    }
  }

  // A graph that is valid with fewer memberships is valid with more.
  lemma {:induction false} ValidWithMore(ss: StatementMap, few: Datasets, more: Datasets, g: GraphResult,
          h: GraphResult)
    requires IsValidGraph(ss, few, g) && IsGraph(ss, more, h)
    requires forall k | k in few.memberships :: k in more.memberships && more.memberships[k] == few.memberships[k]
    ensures IsValidGraph(ss, more, h)
    ensures h.predecessors == g.predecessors && h.consumedSubjects == g.consumedSubjects
      && Elements(h.roots) == Elements(g.roots)
  {
    SamePredecessors(ss, g.predecessors, h.predecessors);
    ValidIsAcyclic(ss, few, g);
    if h.problems != [] {
      var p := h.problems[0];
      assert p in h.problems && Problem(p.code, p.statementDigest) in h.problems;
      if p.code != GraphCycle {
        assert HasProblem(ss, more, p.code, p.statementDigest);
        var code := StillProblem(ss, few, more, p.code, p.statementDigest);
        NoProblem(ss, few, g, code, p.statementDigest);
      }
      assert false;
    }
  }

  lemma {:induction false} StillProblem(ss: StatementMap, few: Datasets, more: Datasets, code: Code, d: Digest)
    returns (c: Code)
    requires d in ss && code != GraphCycle && HasProblem(ss, more, code, d)
    requires forall k | k in few.memberships :: k in more.memberships && more.memberships[k] == few.memberships[k]
    ensures c != GraphCycle && HasProblem(ss, few, c, d)
  {
    hide LinkedInputs, Mixed, PredecessorSet;
    if code == EventIdDuplicate || code == PredicateSemanticsUnsupported || code == RootInvalid {
      c := code;
    } else {
      var x :| x in LinkedInputs(ss, d) && InputProblem(ss, more, x) == Some(code);
      assert InputProblem(ss, few, x).Some?;
      c := InputProblem(ss, few, x).value;
    }
  }

  lemma SameReached(heads: seq<Digest>, other: seq<Digest>, preds: Predecessors, a: set<Digest>, b: set<Digest>)
    requires Elements(heads) == Elements(other)
    requires IsReachable(heads, preds, a) && IsReachable(other, preds, b)
    ensures a == b
  {
  }
}
