/** What an allowed run guarantees, and what a producer can count on. */
module Safety {
  import opened Statements
  import opened Policy
  import opened Cycles
  import opened Graph
  import opened DatasetStep
  import opened Verifier

  // ---------------------------------------------------------------------
  // Dropping E_DATASET_MANIFEST_REQUIRED
  // ---------------------------------------------------------------------

  lemma UsableIsScoped(world: World, policy: TrustPolicy, request: Request, t: Trace)
    requires world.manifest.Ok? && IsTrace(world, policy, request, t)
    ensures UsableOf(world, t).Keys <= t.authorized
    ensures forall d | d in UsableOf(world, t) :: d in t.records && UsableOf(world, t)[d] == t.records[d].statement
  {
  }

  // Whenever the graph reports the problem that the verifier drops, step 8
  // has already recorded an error, so the run was going to deny anyway.
  lemma {:induction false} DroppedProblemIsDenied(world: World, policy: TrustPolicy, request: Request, t: Trace,
          d: Digest)
    requires world.manifest.Ok? && IsTrace(world, policy, request, t)
    requires Problem(DatasetManifestRequired, d) in t.graph.problems
    ensures !EarlyOk(world, policy, request, t) && !Allowed(world, policy, request, t)
  {
    var loaded := world.manifest.value;
    var handoff := HandoffAuthorized(policy, loaded.signatures, request.time);
    var w := Step8Of(world, request, loaded.manifest, t.records, t.authorized, handoff);
    UsableIsScoped(world, policy, request, t);
    var usable := UsableOf(world, t);
    GraphProblemIsReal(usable, DataOf(t), t.graph, DatasetManifestRequired, d);
    MissingManifestWasRejected(w, t.step8, t.candidates, usable, d);
    var x :| x in usable[d].inputs && EdgeId(w, x).Some? && IsRejected(w, t.candidates, EdgeId(w, x).value);
  }

  lemma GraphProblemIsReal(ss: StatementMap, data: Datasets, g: GraphResult, code: Code, d: Digest)
    requires IsGraph(ss, data, g) && Problem(code, d) in g.problems && code != GraphCycle
    ensures d in ss && HasProblem(ss, data, code, d)
  {
  }

  lemma {:induction false} AllowedGraphIsValid(world: World, policy: TrustPolicy, request: Request, t: Trace)
    requires world.manifest.Ok? && IsTrace(world, policy, request, t) && Allowed(world, policy, request, t)
    ensures IsValidGraph(UsableOf(world, t), DataOf(t), t.graph)
  {
    if t.graph.problems != [] {
      var p := t.graph.problems[0];
      assert p in t.graph.problems;
      DroppedProblemIsDenied(world, policy, request, t, p.statementDigest);
    }
  }

  // ---------------------------------------------------------------------
  // Allow implies safe
  // ---------------------------------------------------------------------

  // Bytes with the artifact's digest that the run had in hand.
  ghost predicate HasSignedBytes(world: World, request: Request, a: FinalArtifact) {
    exists bytes: Bytes :: world.hash(bytes) == a.digest &&
      ((IdOf(a) in request.consumerMaterials && request.consumerMaterials[IdOf(a)] == bytes)
       || (IdOf(a) in world.artifactPaths && world.read(world.artifactPaths[IdOf(a)]) == Content(bytes)))
  }

  lemma SignedBytes(world: World, policy: TrustPolicy, request: Request, t: Trace, a: FinalArtifact)
    requires world.manifest.Ok? && IsTrace(world, policy, request, t) && BytesPresent(world, t.step8.snapshots, a)
    ensures HasSignedBytes(world, request, a)
  {
    hide AreRecords, IsAuthorized, AreCandidates, IsGraph, IsReachable;
    if IdOf(a) in t.step8.snapshots {
      assert world.hash(t.step8.snapshots[IdOf(a)]) == a.digest;
    } else {
      assert world.hash(world.read(world.artifactPaths[IdOf(a)]).bytes) == a.digest;
    }
  }

  // The statement sets of an allowed run all coincide.
  lemma {:induction false} AllowedSetsCoincide(world: World, policy: TrustPolicy, request: Request, t: Trace)
    requires world.manifest.Ok? && IsTrace(world, policy, request, t) && Allowed(world, policy, request, t)
    ensures var m := world.manifest.value.manifest;
      && world.attestations.Keys == t.records.Keys == t.authorized == m.statements == t.reached
      && UsableOf(world, t) == StatementsOf(t.records)
      && forall d | d in m.statements :: d in t.records && t.records[d].digest == d
           && SignaturesClean(t.records[d].signatures) && IsAuthorized(world, policy, request.time, d, t.records[d])
  {
    hide AreCandidates, Contributed, IsGraph, IsReachable, IsAuthorized, SignaturesClean, Fresh, BytesPresent;
  }

  // The main safety theorem.
  lemma {:induction false} AllowImpliesSafe(world: World, policy: TrustPolicy, request: Request, t: Trace)
    requires world.manifest.Ok? && IsTrace(world, policy, request, t) && Allowed(world, policy, request, t)
    ensures var m := world.manifest.value.manifest;
      && IsValidGraph(StatementsOf(t.records), DataOf(t), t.graph)
      && Elements(t.graph.roots) == m.roots
      && Elements(m.heads) == ArtifactHeads(m)
      && (forall r | r in m.roots :: r in t.records && t.records[r].statement.kind.Origin?)
      && (forall a | a in m.artifacts ::
            && a.head in t.records && Subject(a.name, a.digest) in t.records[a.head].statement.subjects
            && !IsConsumed(StatementsOf(t.records), IdOf(a))
            && HasSignedBytes(world, request, a))
      && (forall x: Method :: Applies(policy, request, x) ==> Passes(policy, request, world.manifest.value, x))
      && (policy.handoff.allowReplayableHandoff || exists x: Method :: Applies(policy, request, x))
      && IsFreshHandoff(policy, request, world.manifest.value)
  {
    FreshIff(policy, request, world.manifest.value);
    AllowedGraphIsValid(world, policy, request, t);
    AllowedSetsCoincide(world, policy, request, t);
    AllowedRoots(world, policy, request, t);
    AllowedArtifacts(world, policy, request, t);
    hide IsTrace, EarlyOk, IsGraph;
  }

  lemma {:induction false} AllowedRoots(world: World, policy: TrustPolicy, request: Request, t: Trace)
    requires world.manifest.Ok? && Allowed(world, policy, request, t)
    requires IsValidGraph(StatementsOf(t.records), DataOf(t), t.graph)
    ensures forall r | r in world.manifest.value.manifest.roots :: r in t.records && t.records[r].statement.kind.Origin?
  {
    hide EarlyOk, Fresh, BytesPresent, IsFinalSubject;
    var ss := StatementsOf(t.records);
    forall r | r in world.manifest.value.manifest.roots
      ensures r in t.records && t.records[r].statement.kind.Origin?
    {
      assert r in Elements(t.graph.roots);
      NoProblem(ss, DataOf(t), t.graph, RootInvalid, r);
    }
  }

  lemma {:induction false} AllowedArtifacts(world: World, policy: TrustPolicy, request: Request, t: Trace)
    requires world.manifest.Ok? && IsTrace(world, policy, request, t) && Allowed(world, policy, request, t)
    requires UsableOf(world, t) == StatementsOf(t.records)
    ensures forall a | a in world.manifest.value.manifest.artifacts ::
      && a.head in t.records && Subject(a.name, a.digest) in t.records[a.head].statement.subjects
      && !IsConsumed(StatementsOf(t.records), IdOf(a))
      && HasSignedBytes(world, request, a)
  {
    hide EarlyOk, AreRecords, IsAuthorized, AreCandidates, Contributed, IsReachable, Fresh, HasSignedBytes,
      BytesPresent;
    forall a | a in world.manifest.value.manifest.artifacts
      ensures && a.head in t.records && Subject(a.name, a.digest) in t.records[a.head].statement.subjects
              && !IsConsumed(StatementsOf(t.records), IdOf(a))
              && HasSignedBytes(world, request, a)
    {
      SignedBytes(world, policy, request, t, a);
      assert IdOf(a) in t.graph.consumedSubjects <==> IsConsumed(UsableOf(world, t), IdOf(a));
    }
  }

  // Every statement behind an allowed handoff goes back to a signed root.
  lemma {:induction false} AllowedHistoryReachesRoot(world: World, policy: TrustPolicy, request: Request, t: Trace,
          d: Digest)
    returns (w: seq<Digest>)
    requires world.manifest.Ok? && IsTrace(world, policy, request, t) && Allowed(world, policy, request, t)
    requires d in world.manifest.value.manifest.statements
    ensures IsWalk(t.graph.predecessors, w) && w[0] == d && w[|w| - 1] in world.manifest.value.manifest.roots
    ensures forall k | 0 <= k < |w| :: w[k] in t.authorized
  {
    AllowedGraphIsValid(world, policy, request, t);
    AllowedSetsCoincide(world, policy, request, t);
    w := HistoryToRoot(StatementsOf(t.records), DataOf(t), t.graph, d);
  }

  lemma {:induction false} HistoryToRoot(ss: StatementMap, data: Datasets, g: GraphResult, d: Digest)
    returns (w: seq<Digest>)
    requires IsValidGraph(ss, data, g) && d in ss
    ensures IsWalk(g.predecessors, w) && w[0] == d && w[|w| - 1] in Elements(g.roots)
    ensures forall k | 0 <= k < |w| :: w[k] in ss
  {
    hide IsGraph;
    ValidIsAcyclic(ss, data, g);
    SingletonWalk(g.predecessors, d);
    w := WalkToOrigin(ss, data, g, [d]);
    HistoryEndsAtOrigin(ss, data, g, w);
    SourceIsRoot(ss, data, g, w[|w| - 1]);
  }

  lemma SourceIsRoot(ss: StatementMap, data: Datasets, g: GraphResult, d: Digest)
    requires IsGraph(ss, data, g) && d in ss && d in g.predecessors && g.predecessors[d] == []
    ensures d in Elements(g.roots)
  {
    assert Elements(g.predecessors[d]) == PredecessorSet(ss, d);
  }
}
