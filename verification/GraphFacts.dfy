/** The graph in the fields of the statements: which edges, subjects and heads
    it has, which defect of which statement gets which code, and when it has no
    problem at all. */
module GraphFacts {
  import opened Wrappers
  import opened Statements
  import opened Cycles
  import opened Graph

  // ---------------------------------------------------------------------
  // The defects of an input
  // ---------------------------------------------------------------------

  // The statement has exactly one subject of that name, with that digest.
  predicate OnlySubject(subjects: seq<Subject>, name: string, digest: Digest) {
    exists i | 0 <= i < |subjects| :: subjects[i] == Subject(name, digest)
      && forall j | 0 <= j < |subjects| && j != i :: subjects[j].name != name
  }

  ghost predicate SubjectMissing(ss: StatementMap, x: Input) {
    x.statementDigest in ss && forall digest :: !OnlySubject(ss[x.statementDigest].subjects, x.subjectName, digest)
  }

  // The named entry is unknown although the manifest was verified.
  predicate EntryMissing(data: Datasets, x: Input) {
    && x.entryName.Some?
    && (x.statementDigest, x.subjectName, x.entryName.value) !in data.memberships
    && (x.statementDigest, x.subjectName) in data.verifiedSubjects
  }

  predicate ManifestMissing(data: Datasets, x: Input) {
    && x.entryName.Some?
    && (x.statementDigest, x.subjectName, x.entryName.value) !in data.memberships
    && (x.statementDigest, x.subjectName) !in data.verifiedSubjects
  }

  // The digest of the subject, or of the recorded entry, is not the input's.
  predicate DigestDiffers(data: Datasets, x: Input, subject: Digest) {
    if x.entryName.None? then subject != x.digest
    else
      var key := (x.statementDigest, x.subjectName, x.entryName.value);
      key in data.memberships && data.memberships[key] != x.digest
  }

  // The input names a present statement with one such subject, whose digest, or
  // the recorded entry's, it has.
  ghost predicate IsGoodInput(ss: StatementMap, data: Datasets, x: Input) {
    && x.statementDigest in ss
    && exists digest :: OnlySubject(ss[x.statementDigest].subjects, x.subjectName, digest)
         && (x.entryName.None? ==> digest == x.digest)
         && (x.entryName.Some? ==>
               var key := (x.statementDigest, x.subjectName, x.entryName.value);
               key in data.memberships && data.memberships[key] == x.digest)
  }

  lemma {:induction false} NamedNone(subjects: seq<Subject>, name: string)
    ensures Named(subjects, name) == [] <==> forall j | 0 <= j < |subjects| :: subjects[j].name != name
  {
    if subjects != [] {
      NamedNone(subjects[..|subjects| - 1], name);
    }
  }

  lemma OnlyAtEnd(subjects: seq<Subject>, name: string, digest: Digest)
    requires subjects != []
    ensures var front, last := subjects[..|subjects| - 1], subjects[|subjects| - 1];
      OnlySubject(subjects, name, digest) <==>
        if last.name == name then last.digest == digest && forall j | 0 <= j < |front| :: front[j].name != name
        else OnlySubject(front, name, digest)
  {
    var front, last := subjects[..|subjects| - 1], subjects[|subjects| - 1];
    assert subjects == front + [last] && last == Subject(last.name, last.digest);
    if last.name == name {
      assert subjects[|subjects| - 1] == last;
    } else if OnlySubject(front, name, digest) {
      var i :| 0 <= i < |front| && front[i] == Subject(name, digest)
        && forall j | 0 <= j < |front| && j != i :: front[j].name != name;
      assert subjects[i] == Subject(name, digest);
    }
  }

  lemma {:induction false} NamedOne(subjects: seq<Subject>, name: string, digest: Digest)
    ensures Named(subjects, name) == [Subject(name, digest)] <==> OnlySubject(subjects, name, digest)
  {
    if subjects != [] {
      hide OnlySubject;
      var front, last := subjects[..|subjects| - 1], subjects[|subjects| - 1];
      OnlyAtEnd(subjects, name, digest);
      if last.name == name {
        NamedNone(front, name);
        LastOfAppend(Named(front, name), last, Subject(name, digest));
      } else {
        NamedOne(front, name, digest);
      }
    }
  }

  lemma LastOfAppend(front: seq<Subject>, last: Subject, only: Subject)
    ensures front + [last] == [only] <==> front == [] && last == only
  {
    if front + [last] == [only] {
      assert (front + [last])[|front|] == last;
    }
  }

  lemma NamedCount(subjects: seq<Subject>, name: string)
    ensures |Named(subjects, name)| == 1 <==> exists digest :: OnlySubject(subjects, name, digest)
    ensures forall digest | OnlySubject(subjects, name, digest) ::
      |Named(subjects, name)| == 1 && Named(subjects, name)[0].digest == digest
  {
    hide Named, OnlySubject;
    forall digest
      ensures Named(subjects, name) == [Subject(name, digest)] <==> OnlySubject(subjects, name, digest)
    {
      NamedOne(subjects, name, digest);
    }
    if |Named(subjects, name)| == 1 {
      NamedAre(subjects, name);
      var s := Named(subjects, name)[0];
      assert s in Named(subjects, name) && Named(subjects, name) == [Subject(name, s.digest)];
    }
  }

  // Which code an input gets.
  lemma InputDefects(ss: StatementMap, data: Datasets, x: Input)
    ensures InputProblem(ss, data, x) == Some(PredecessorMissing) <==> x.statementDigest !in ss
    ensures InputProblem(ss, data, x) == Some(PredecessorSubject) <==>
      x.statementDigest in ss && (SubjectMissing(ss, x) || EntryMissing(data, x))
    ensures InputProblem(ss, data, x) == Some(DatasetManifestRequired) <==>
      x.statementDigest in ss && !SubjectMissing(ss, x) && ManifestMissing(data, x)
    ensures InputProblem(ss, data, x) == Some(InputDigest) <==>
      x.statementDigest in ss && exists digest ::
        OnlySubject(ss[x.statementDigest].subjects, x.subjectName, digest) && DigestDiffers(data, x, digest)
    ensures InputProblem(ss, data, x) == None <==> IsGoodInput(ss, data, x)
    ensures InputProblem(ss, data, x).Some? ==>
      InputProblem(ss, data, x).value in {PredecessorMissing, PredecessorSubject, DatasetManifestRequired, InputDigest}
  {
    hide Named, OnlySubject;
    if x.statementDigest in ss {
      NamedCount(ss[x.statementDigest].subjects, x.subjectName);
    }
  }

  // ---------------------------------------------------------------------
  // The graph
  // ---------------------------------------------------------------------

  // A statement of the family of the one with the smallest digest.
  ghost predicate InFamily(ss: StatementMap, d: Digest)
    requires d in ss
  {
    exists first | first in ss && (forall e | e in ss :: first <= e) :: ss[first].version == ss[d].version
  }

  // The statement is a transform of the family and has this input.
  ghost predicate HasInput(ss: StatementMap, d: Digest, x: Input) {
    d in ss && InFamily(ss, d) && ss[d].kind == Transform && x in ss[d].inputs
  }

  lemma LinkedIff(ss: StatementMap, d: Digest, x: Input)
    requires d in ss
    ensures x in LinkedInputs(ss, d) <==> HasInput(ss, d, x)
  {
    MixedIff(ss, d);
  }

  lemma MixedIff(ss: StatementMap, d: Digest)
    requires d in ss
    ensures Mixed(ss, d) <==> !InFamily(ss, d)
  {
    if InFamily(ss, d) {
      var first :| first in ss && (forall e | e in ss :: first <= e) && ss[first].version == ss[d].version;
      assert IsGraphVersion(ss, ss[d].version);
    }
  }

  // Which statement gets which problem.
  ghost predicate IsDefective(ss: StatementMap, data: Datasets, code: Code, d: Digest)
    requires d in ss && code != GraphCycle
  {
    match code
    case EventIdDuplicate => exists e | e in ss && e < d :: ss[e].eventId == ss[d].eventId && ss[d].eventId != None
    case PredicateSemanticsUnsupported => !InFamily(ss, d)
    case PredecessorMissing => exists x :: HasInput(ss, d, x) && x.statementDigest !in ss
    case PredecessorSubject =>
      exists x :: HasInput(ss, d, x) && x.statementDigest in ss && (SubjectMissing(ss, x) || EntryMissing(data, x))
    case DatasetManifestRequired =>
      exists x :: HasInput(ss, d, x) && x.statementDigest in ss && !SubjectMissing(ss, x) && ManifestMissing(data, x)
    case InputDigest =>
      exists x, digest :: HasInput(ss, d, x) && x.statementDigest in ss
        && OnlySubject(ss[x.statementDigest].subjects, x.subjectName, digest) && DigestDiffers(data, x, digest)
    case RootInvalid => ss[d].kind == Transform && forall x :: !HasInput(ss, d, x)
  }

  lemma DefectIff(ss: StatementMap, data: Datasets, code: Code, d: Digest)
    requires d in ss && code != GraphCycle
    ensures HasProblem(ss, data, code, d) <==> IsDefective(ss, data, code, d)
  {
    hide LinkedInputs, HasInput, InputProblem, SubjectMissing, OnlySubject, DigestDiffers, EntryMissing,
      ManifestMissing,
      InFamily, Mixed;
    MixedIff(ss, d);
    forall x
      ensures x in LinkedInputs(ss, d) <==> HasInput(ss, d, x)
    {
      LinkedIff(ss, d, x);
    }
    if code == RootInvalid {
      assert forall x | x in LinkedInputs(ss, d) :: x.statementDigest in PredecessorSet(ss, d);
    } else if code != EventIdDuplicate && code != PredicateSemanticsUnsupported {
      forall x: Input
        ensures InputProblem(ss, data, x) == Some(PredecessorMissing) <==> x.statementDigest !in ss
        ensures InputProblem(ss, data, x) == Some(PredecessorSubject) <==>
          x.statementDigest in ss && (SubjectMissing(ss, x) || EntryMissing(data, x))
        ensures InputProblem(ss, data, x) == Some(DatasetManifestRequired) <==>
          x.statementDigest in ss && !SubjectMissing(ss, x) && ManifestMissing(data, x)
        ensures InputProblem(ss, data, x) == Some(InputDigest) <==>
          x.statementDigest in ss && exists digest ::
            OnlySubject(ss[x.statementDigest].subjects, x.subjectName, digest) && DigestDiffers(data, x, digest)
      {
        InputDefects(ss, data, x);
      }
    }
  }

  // A linked input that names no entry consumes the subject with its own digest.
  ghost predicate Consumes(ss: StatementMap, d: Digest, x: Input, id: SubjectId) {
    && HasInput(ss, d, x) && x.entryName == None && id == (x.statementDigest, x.subjectName, x.digest)
    && x.statementDigest in ss
    && exists digest :: OnlySubject(ss[x.statementDigest].subjects, x.subjectName, digest)
  }

  lemma ConsumedIff(ss: StatementMap, id: SubjectId)
    ensures IsConsumed(ss, id) <==> exists d, x :: Consumes(ss, d, x, id)
  {
    hide LinkedInputs, HasInput, Named, OnlySubject;
    forall d, x | d in ss
      ensures x in LinkedInputs(ss, d) && id in ConsumedBy(ss, x) <==> Consumes(ss, d, x, id)
    {
      LinkedIff(ss, d, x);
      if x.statementDigest in ss {
        NamedCount(ss[x.statementDigest].subjects, x.subjectName);
      }
    }
    if exists d, x :: Consumes(ss, d, x, id) {
      var d, x :| Consumes(ss, d, x, id);
      assert d in ss by { InputOwner(ss, d, x); }
    }
  }

  lemma InputOwner(ss: StatementMap, d: Digest, x: Input)
    requires HasInput(ss, d, x)
    ensures d in ss
  {
  }

  // Main result: what build_graph computes, in the fields of the statements.
  lemma {:induction false} GraphInFields(ss: StatementMap, data: Datasets, g: GraphResult)
    requires IsGraph(ss, data, g)
    ensures g.predecessors.Keys == ss.Keys
    ensures forall d, p | d in ss :: p in g.predecessors[d] <==>
      exists x :: HasInput(ss, d, x) && x.statementDigest == p
    ensures forall id :: id in g.consumedSubjects <==> exists d, x :: Consumes(ss, d, x, id)
    ensures forall d :: d in g.roots <==> d in ss && forall x :: !HasInput(ss, d, x)
    ensures forall d :: d in g.heads <==> d in ss && exists s | s in ss[d].subjects ::
      forall e, x :: !Consumes(ss, e, x, (d, s.name, s.digest))
    ensures forall code, d | d in ss && code != GraphCycle ::
      Problem(code, d) in g.problems <==> IsDefective(ss, data, code, d)
  {
    hide LinkedInputs, HasInput, Consumes, IsConsumed, HasProblem, IsDefective, MarksCycles, IsAcyclic, Ascending;
    forall d, x | d in ss
      ensures x in LinkedInputs(ss, d) <==> HasInput(ss, d, x)
    {
      LinkedIff(ss, d, x);
    }
    forall d, p | d in ss
      ensures p in PredecessorSet(ss, d) <==> exists x :: HasInput(ss, d, x) && x.statementDigest == p
    {
    }
    forall d, p | d in ss
      ensures p in g.predecessors[d] <==> exists x :: HasInput(ss, d, x) && x.statementDigest == p
    {
      assert p in g.predecessors[d] <==> p in Elements(g.predecessors[d]);
    }
    forall id
      ensures id in g.consumedSubjects <==> exists d, x :: Consumes(ss, d, x, id)
    {
      ConsumedIff(ss, id);
    }
    RootsInFields(ss, data, g);
    HeadsInFields(ss, data, g);
    forall code, d | d in ss && code != GraphCycle
      ensures Problem(code, d) in g.problems <==> IsDefective(ss, data, code, d)
    {
      DefectIff(ss, data, code, d);
    }
  }

  lemma RootsInFields(ss: StatementMap, data: Datasets, g: GraphResult)
    requires IsGraph(ss, data, g)
    ensures forall d :: d in g.roots <==> d in ss && forall x :: !HasInput(ss, d, x)
  {
    hide LinkedInputs, HasInput, RightProblems, RightPredecessors, IsConsumed, IsTerminal, Ascending;
    forall d
      ensures d in g.roots <==> d in ss && forall x :: !HasInput(ss, d, x)
    {
      assert d in g.roots <==> d in Elements(g.roots);
      if d in ss {
        forall x
          ensures x in LinkedInputs(ss, d) <==> HasInput(ss, d, x)
        {
          LinkedIff(ss, d, x);
        }
        assert forall x | x in LinkedInputs(ss, d) :: x.statementDigest in PredecessorSet(ss, d);
      }
    }
  }

  lemma HeadsInFields(ss: StatementMap, data: Datasets, g: GraphResult)
    requires IsGraph(ss, data, g)
    ensures forall d :: d in g.heads <==> d in ss && exists s | s in ss[d].subjects ::
      forall e, x :: !Consumes(ss, e, x, (d, s.name, s.digest))
  {
    hide RightProblems, RightPredecessors, IsConsumed, Consumes, Ascending, PredecessorSet;
    forall id
      ensures IsConsumed(ss, id) <==> exists d, x :: Consumes(ss, d, x, id)
    {
      ConsumedIff(ss, id);
    }
    assert forall d :: d in g.heads <==> d in Elements(g.heads);
  }

  // ---------------------------------------------------------------------
  // A graph without defects has no problem
  // ---------------------------------------------------------------------

  ghost predicate IsGoodGraph(ss: StatementMap, data: Datasets) {
    && (forall d, e | d in ss && e in ss :: ss[d].version == ss[e].version)
    && (forall d, e | d in ss && e in ss && d != e && ss[d].eventId.Some? :: ss[d].eventId != ss[e].eventId)
    && (forall d | d in ss && ss[d].kind == Transform ::
          ss[d].inputs != [] && forall x | x in ss[d].inputs :: IsGoodInput(ss, data, x))
  }

  lemma OneFamily(ss: StatementMap, d: Digest)
    requires d in ss && forall e | e in ss :: ss[e].version == ss[d].version
    ensures InFamily(ss, d)
  {
    var first := Smallest(ss.Keys);
    assert first in ss && ss[first].version == ss[d].version;
  }

  lemma GoodIsNotDefective(ss: StatementMap, data: Datasets, code: Code, d: Digest)
    requires IsGoodGraph(ss, data) && d in ss && code != GraphCycle
    ensures !IsDefective(ss, data, code, d)
  {
    hide OnlySubject, InFamily;
    OneFamily(ss, d);
    if code == RootInvalid {
      if ss[d].kind == Transform {
        assert HasInput(ss, d, ss[d].inputs[0]);
      }
    } else if code != EventIdDuplicate && code != PredicateSemanticsUnsupported {
      forall x | HasInput(ss, d, x)
        ensures InputProblem(ss, data, x) == None
      {
        InputDefects(ss, data, x);
      }
      hide IsGoodGraph, SubjectMissing, EntryMissing, ManifestMissing, DigestDiffers, HasInput, InputProblem;
      forall x: Input
        ensures x.statementDigest !in ss ==> InputProblem(ss, data, x) != None
        ensures x.statementDigest in ss && (SubjectMissing(ss, x) || EntryMissing(data, x)) ==>
          InputProblem(ss, data, x) != None
        ensures x.statementDigest in ss && !SubjectMissing(ss, x) && ManifestMissing(data, x) ==>
          InputProblem(ss, data, x) != None
        ensures x.statementDigest in ss && (exists digest ::
            OnlySubject(ss[x.statementDigest].subjects, x.subjectName, digest) && DigestDiffers(data, x, digest)) ==>
          InputProblem(ss, data, x) != None
      {
        InputDefects(ss, data, x);
      }
    }
  }

  // The converse of EdgesAgree: a good acyclic graph is free of problems, and
  // nothing else is.
  lemma {:induction false} GoodGraphHasNoProblem(ss: StatementMap, data: Datasets, g: GraphResult)
    requires IsGraph(ss, data, g)
    ensures g.problems == [] <==> IsGoodGraph(ss, data) && IsAcyclic(g.predecessors)
  {
    hide IsDefective, IsAcyclic, IsGoodGraph, MarksCycles;
    GraphInFields(ss, data, g);
    EmptyProblems(g.problems);
    if IsGoodGraph(ss, data) && IsAcyclic(g.predecessors) {
      forall p
        ensures p !in g.problems
      {
        assert p == Problem(p.code, p.statementDigest);
        if p.statementDigest in ss && p.code != GraphCycle {
          GoodIsNotDefective(ss, data, p.code, p.statementDigest);
        }
      }
    }
    if g.problems == [] {
      assert forall d :: Problem(GraphCycle, d) !in g.problems;
      FaultlessIsGood(ss, data, g);
    }
  }

  lemma EmptyProblems(problems: seq<Problem>)
    ensures problems == [] <==> forall p :: p !in problems
  {
    if problems != [] {
      assert problems[0] in problems;
    }
  }

  lemma FaultlessIsGood(ss: StatementMap, data: Datasets, g: GraphResult)
    requires IsGraph(ss, data, g) && g.problems == []
    ensures IsGoodGraph(ss, data)
  {
    hide MarksCycles, IsAcyclic, IsDefective, IsGraph;
    GraphInFields(ss, data, g);
    forall code, d | d in ss && code != GraphCycle
      ensures !IsDefective(ss, data, code, d)
    {
      assert Problem(code, d) !in g.problems;
    }
    NotDefectiveIsGood(ss, data);
  }

  lemma NotDefectiveIsGood(ss: StatementMap, data: Datasets)
    requires forall code, d | d in ss && code != GraphCycle :: !IsDefective(ss, data, code, d)
    ensures IsGoodGraph(ss, data)
  {
    forall d | d in ss
      ensures InFamily(ss, d)
    {
      assert !IsDefective(ss, data, PredicateSemanticsUnsupported, d);
    }
    forall d, e | d in ss && e in ss
      ensures ss[d].version == ss[e].version
    {
      SameFamily(ss, d, e);
    }
    forall d, e | d in ss && e in ss && d != e && ss[d].eventId.Some?
      ensures ss[d].eventId != ss[e].eventId
    {
      assert !IsDefective(ss, data, EventIdDuplicate, if d < e then e else d);
    }
    forall d | d in ss && ss[d].kind == Transform
      ensures ss[d].inputs != []
      ensures forall x | x in ss[d].inputs :: IsGoodInput(ss, data, x)
    {
      assert !IsDefective(ss, data, RootInvalid, d);
      forall x | x in ss[d].inputs
        ensures IsGoodInput(ss, data, x)
      {
        assert HasInput(ss, d, x);
        GoodUnlessDefective(ss, data, d, x);
      }
    }
  }

  lemma SameFamily(ss: StatementMap, d: Digest, e: Digest)
    requires d in ss && e in ss && InFamily(ss, d) && InFamily(ss, e)
    ensures ss[d].version == ss[e].version
  {
  }

  lemma GoodUnlessDefective(ss: StatementMap, data: Datasets, d: Digest, x: Input)
    requires HasInput(ss, d, x) && d in ss
    requires forall code | code != GraphCycle :: !IsDefective(ss, data, code, d)
    ensures IsGoodInput(ss, data, x)
  {
    hide OnlySubject, InputProblem, IsGoodInput, InFamily, SubjectMissing, EntryMissing, ManifestMissing, DigestDiffers;
    InputDefects(ss, data, x);
    assert !IsDefective(ss, data, PredecessorMissing, d) && !IsDefective(ss, data, PredecessorSubject, d);
    assert !IsDefective(ss, data, DatasetManifestRequired, d) && !IsDefective(ss, data, InputDigest, d);
  }

  // ---------------------------------------------------------------------
  // Reachability
  // ---------------------------------------------------------------------

  // Each step goes to a predecessor; the last may be absent from the graph.
  predicate IsPath(preds: Predecessors, path: seq<Digest>) {
    && path != []
    && forall i | 0 <= i < |path| - 1 :: path[i] in preds && path[i + 1] in preds[path[i]]
  }

  ghost predicate IsBehind(heads: seq<Digest>, preds: Predecessors, d: Digest) {
    exists path :: IsPath(preds, path) && path[0] in heads && path[|path| - 1] == d
  }

  lemma {:induction false} PathStays(heads: seq<Digest>, preds: Predecessors, reached: set<Digest>, path: seq<Digest>)
    requires IsReachable(heads, preds, reached) && IsPath(preds, path) && path[0] in heads
    ensures path[|path| - 1] in reached
    decreases |path|
  {
    if |path| == 1 {
      assert path[0] in Elements(heads);
    } else {
      var front := path[..|path| - 1];
      assert front[0] == path[0] && IsPath(preds, front);
      PathStays(heads, preds, reached, front);
      var last := |path| - 2;
      assert path[last + 1] in preds[path[last]] && path[last] == front[|front| - 1];
    }
  }

  lemma LongerPath(heads: seq<Digest>, preds: Predecessors, d: Digest, p: Digest)
    requires IsBehind(heads, preds, d) && d in preds && p in preds[d]
    ensures IsBehind(heads, preds, p)
  {
    var path :| IsPath(preds, path) && path[0] in heads && path[|path| - 1] == d;
    assert IsPath(preds, path + [p]);
  }

  // Main result: what is reached is what some path from a head ends at.
  lemma {:induction false} ReachedIff(heads: seq<Digest>, preds: Predecessors, reached: set<Digest>, d: Digest)
    requires IsReachable(heads, preds, reached)
    ensures d in reached <==> IsBehind(heads, preds, d)
  {
    hide IsPath, IsBehind;
    var behind := set x | x in reached && IsBehind(heads, preds, x);
    forall x | x in heads
      ensures IsBehind(heads, preds, x) && x in reached
    {
      OnHead(heads, preds, x);
      assert x in Elements(heads);
    }
    forall x, p | x in behind && x in preds && p in preds[x]
      ensures p in behind
    {
      LongerPath(heads, preds, x, p);
    }
    assert Elements(heads) <= behind && ClosedUnder(preds, behind);
    if IsBehind(heads, preds, d) {
      BehindIsReached(heads, preds, reached, d);
    }
  }

  lemma OnHead(heads: seq<Digest>, preds: Predecessors, d: Digest)
    requires d in heads
    ensures IsBehind(heads, preds, d)
  {
    assert IsPath(preds, [d]) && [d][0] in heads;
  }

  lemma BehindIsReached(heads: seq<Digest>, preds: Predecessors, reached: set<Digest>, d: Digest)
    requires IsReachable(heads, preds, reached) && IsBehind(heads, preds, d)
    ensures d in reached
  {
    hide IsReachable;
    var path :| IsPath(preds, path) && path[0] in heads && path[|path| - 1] == d;
    PathStays(heads, preds, reached, path);
  }
}
