/** The statement graph (src/makoto/graph.py). */
module Graph {
  import opened Wrappers
  import opened Statements
  import opened Cycles

  // ---------------------------------------------------------------------
  // reachable_from_heads
  // ---------------------------------------------------------------------

  predicate ClosedUnder(preds: Predecessors, s: set<Digest>) {
    forall x | x in s && x in preds :: forall p | p in preds[x] :: p in s
  }

  function Mentioned(preds: Predecessors): set<Digest> {
    set x, p | x in preds && p in preds[x] :: p
  }

  // The least set that holds the heads and is closed under predecessors.
  ghost predicate IsReachable(heads: seq<Digest>, preds: Predecessors, reached: set<Digest>) {
    && Elements(heads) <= reached && ClosedUnder(preds, reached)
    && forall s: set<Digest> :: Elements(heads) <= s && ClosedUnder(preds, s) ==> reached <= s
  }

  function Reversed(s: seq<Digest>): (r: seq<Digest>)
    ensures Elements(r) == Elements(s) && |r| == |s|
  {
    if s == [] then []
    else
      ElementsAppend(Reversed(s[1..]), s[0]);
      assert s == [s[0]] + s[1..];
      Reversed(s[1..]) + [s[0]]
  }

  // Reached so far, and still to be visited.
  ghost predicate Exploring(heads: seq<Digest>, preds: Predecessors, reached: set<Digest>, pending: set<Digest>) {
    && Elements(heads) <= reached + pending
    && (forall x | x in reached && x in preds :: forall p | p in preds[x] :: p in reached + pending)
    && (forall s: set<Digest> :: Elements(heads) <= s && ClosedUnder(preds, s) ==> reached + pending <= s)
  }

  function Behind(preds: Predecessors, x: Digest): set<Digest> {
    if x in preds then Elements(preds[x]) else {}
  }

  lemma ExploreOne(heads: seq<Digest>, preds: Predecessors, reached: set<Digest>, rest: set<Digest>, current: Digest)
    requires Exploring(heads, preds, reached, rest + {current})
    ensures current in reached ==> Exploring(heads, preds, reached, rest)
    ensures Exploring(heads, preds, reached + {current}, rest + Behind(preds, current))
  {
    if current in reached {
      assert reached + (rest + {current}) == reached + rest;
    }
  }

  lemma Explored(heads: seq<Digest>, preds: Predecessors, reached: set<Digest>)
    requires Exploring(heads, preds, reached, {})
    ensures IsReachable(heads, preds, reached)
  {
    assert reached + {} == reached;
  }

  lemma BehindMentioned(preds: Predecessors, x: Digest)
    ensures Behind(preds, x) <= Mentioned(preds)
  {
  }

  lemma ExploreNothing(heads: seq<Digest>, preds: Predecessors)
    ensures Exploring(heads, preds, {}, Elements(heads))
  {
  }

  method ReachableFromHeads(heads: seq<Digest>, preds: Predecessors) returns (r: seq<Digest>)
    ensures Ascending(r) && IsReachable(heads, preds, Elements(r))
  {
    hide Exploring, IsReachable, Ascending, Elements, Mentioned, Reversed;
    var reached: set<Digest> := {};
    var sorted := Sorted(Elements(heads));
    var pending := Reversed(sorted);
    ghost var universe := Elements(heads) + Mentioned(preds);
    ExploreNothing(heads, preds);
    while pending != []
      invariant reached <= universe && Elements(pending) <= universe
      invariant Exploring(heads, preds, reached, Elements(pending))
      decreases universe - reached, |pending|
    {
      var current, rest := pending[|pending| - 1], pending[..|pending| - 1];
      ElementsAppend(rest, current);
      assert pending == rest + [current];
      ExploreOne(heads, preds, reached, Elements(rest), current);
      pending := rest;
      if current in reached {
        continue;
      }
      reached := reached + {current};
      BehindMentioned(preds, current);
      if current in preds {
        ElementsConcat(pending, Reversed(preds[current]));
        pending := pending + Reversed(preds[current]);
      } else {
        assert Elements(rest) + {} == Elements(rest);
      }
    }
    EmptyElements(pending);
    Explored(heads, preds, reached);
    r := Sorted(reached);
  }

  lemma ElementsConcat(a: seq<Digest>, b: seq<Digest>)
    ensures Elements(a + b) == Elements(a) + Elements(b)
  {
    forall y | y in Elements(a) + Elements(b) ensures y in a + b {
      if y in a {
        var i :| 0 <= i < |a| && a[i] == y;
        assert (a + b)[i] == y;
      } else {
        var i :| 0 <= i < |b| && b[i] == y;
        assert (a + b)[|a| + i] == y;
      }
    }
  }

  // ---------------------------------------------------------------------
  // build_graph
  // ---------------------------------------------------------------------

  datatype Code =
    | EventIdDuplicate | PredicateSemanticsUnsupported | PredecessorMissing | PredecessorSubject
    | InputDigest | DatasetManifestRequired | GraphCycle | RootInvalid

  datatype Problem = Problem(code: Code, statementDigest: Digest)

  datatype GraphResult = GraphResult(
    roots: seq<Digest>, heads: seq<Digest>, reachable: seq<Digest>,
    predecessors: Predecessors, consumedSubjects: set<SubjectId>, problems: seq<Problem>)

  type StatementMap = map<Digest, Statement>

  // What step 8 of the verifier learned about dataset manifests.
  datatype Datasets = Datasets(memberships: map<EntryId, Digest>, verifiedSubjects: set<(Digest, string)>)

  // The family of the first statement fixes that of the graph.
  ghost predicate IsGraphVersion(ss: StatementMap, v: Version) {
    exists m | m in ss :: ss[m].version == v && forall x | x in ss :: m <= x
  }

  ghost predicate Mixed(ss: StatementMap, d: Digest)
    requires d in ss
  {
    !IsGraphVersion(ss, ss[d].version)
  }

  // The inputs that are turned into edges.
  ghost function LinkedInputs(ss: StatementMap, d: Digest): seq<Input>
    requires d in ss
  {
    if Mixed(ss, d) || ss[d].kind.Origin? then [] else ss[d].inputs
  }

  ghost function PredecessorSet(ss: StatementMap, d: Digest): set<Digest>
    requires d in ss
  {
    set x | x in LinkedInputs(ss, d) :: x.statementDigest
  }

  function Named(subjects: seq<Subject>, name: string): seq<Subject> {
    if subjects == [] then []
    else Named(subjects[..|subjects| - 1], name)
         + if subjects[|subjects| - 1].name == name then [subjects[|subjects| - 1]] else []
  }

  // The problem that one input edge causes, if any.
  function InputProblem(ss: StatementMap, data: Datasets, x: Input): Option<Code> {
    if x.statementDigest !in ss then Some(PredecessorMissing)
    else
      var matches := Named(ss[x.statementDigest].subjects, x.subjectName);
      if |matches| != 1 then Some(PredecessorSubject)
      else if x.entryName.None? then
        if matches[0].digest != x.digest then Some(InputDigest) else None
      else
        var key := (x.statementDigest, x.subjectName, x.entryName.value);
        if key !in data.memberships then
          if (x.statementDigest, x.subjectName) in data.verifiedSubjects then Some(PredecessorSubject)
          else Some(DatasetManifestRequired)
        else if data.memberships[key] != x.digest then Some(InputDigest)
        else None
  }

  // The subject that an input consumes, whether or not its digest agrees.
  function ConsumedBy(ss: StatementMap, x: Input): set<SubjectId> {
    if x.statementDigest in ss && |Named(ss[x.statementDigest].subjects, x.subjectName)| == 1 && x.entryName.None?
    then {(x.statementDigest, x.subjectName, x.digest)} else {}
  }

  ghost predicate IsConsumed(ss: StatementMap, id: SubjectId) {
    exists d, x | d in ss && x in LinkedInputs(ss, d) :: id in ConsumedBy(ss, x)
  }

  ghost predicate HasProblem(ss: StatementMap, data: Datasets, code: Code, d: Digest)
    requires d in ss && code != GraphCycle
  {
    match code
    case EventIdDuplicate => ss[d].eventId.Some? && exists e | e in ss :: e < d && ss[e].eventId == ss[d].eventId
    case PredicateSemanticsUnsupported => Mixed(ss, d)
    case RootInvalid => PredecessorSet(ss, d) == {} && ss[d].kind.Transform?
    case _ => exists x | x in LinkedInputs(ss, d) :: InputProblem(ss, data, x) == Some(code)
  }

  // A subject that no linked input consumes.
  ghost predicate IsTerminal(ss: StatementMap, d: Digest)
    requires d in ss
  {
    exists s | s in ss[d].subjects :: !IsConsumed(ss, (d, s.name, s.digest))
  }

  ghost predicate RightPredecessors(ss: StatementMap, preds: Predecessors) {
    preds.Keys == ss.Keys && forall d | d in ss :: Ascending(preds[d]) && Elements(preds[d]) == PredecessorSet(ss, d)
  }

  // The statements that are reported to lie on a cycle.
  function ReportedCycles(g: GraphResult): set<Digest> {
    set p | p in g.problems && p.code == GraphCycle :: p.statementDigest
  }

  // On every cycle a statement is reported, and a reported one lies on a cycle
  // that is reported altogether; other problems are reported exactly for the
  // statements that have them.
  ghost predicate RightProblems(ss: StatementMap, data: Datasets, g: GraphResult) {
    && (forall p | p in g.problems :: p.statementDigest in ss)
    && (forall code, d | d in ss && code != GraphCycle ::
          Problem(code, d) in g.problems <==> HasProblem(ss, data, code, d))
    && MarksCycles(g.predecessors, ReportedCycles(g))
    && ((exists d :: Problem(GraphCycle, d) in g.problems) <==> !IsAcyclic(g.predecessors))
  }

  // What build_graph computes, up to the order of its problem list.
  ghost predicate IsGraph(ss: StatementMap, data: Datasets, g: GraphResult) {
    && RightPredecessors(ss, g.predecessors)
    && (forall id: SubjectId :: id in g.consumedSubjects <==> IsConsumed(ss, id))
    && Ascending(g.roots) && Elements(g.roots) == (set d | d in ss && PredecessorSet(ss, d) == {})
    && Ascending(g.heads) && Elements(g.heads) == (set d | d in ss && IsTerminal(ss, d))
    && Ascending(g.reachable) && Elements(g.reachable) == ss.Keys
    && RightProblems(ss, data, g)
  }

  // The edges of one statement: its predecessors, what it consumes and the problems of its inputs.
  method LinkInputs(ss: StatementMap, data: Datasets, d: Digest, inputs: seq<Input>)
    returns (values: set<Digest>, consumed: set<SubjectId>, problems: seq<Problem>)
    ensures values == set x | x in inputs :: x.statementDigest
    ensures forall id: SubjectId :: id in consumed <==> exists x | x in inputs :: id in ConsumedBy(ss, x)
    ensures forall p | p in problems :: p.statementDigest == d
    ensures forall code :: Problem(code, d) in problems <==>
      exists x | x in inputs :: InputProblem(ss, data, x) == Some(code)
  {
    values, consumed, problems := {}, {}, [];
    for k := 0 to |inputs|
      invariant values == set j | 0 <= j < k :: inputs[j].statementDigest
      invariant forall id: SubjectId :: id in consumed <==> exists j | 0 <= j < k :: id in ConsumedBy(ss, inputs[j])
      invariant forall p | p in problems :: p.statementDigest == d
      invariant forall code :: Problem(code, d) in problems <==>
        exists j | 0 <= j < k :: InputProblem(ss, data, inputs[j]) == Some(code)
    {
      var item := inputs[k];
      ghost var consumedBefore, problemsBefore := consumed, problems;
      values := values + {item.statementDigest};
      var c, problem := LinkInput(ss, data, item);
      consumed := consumed + c;
      if problem.Some? {
        problems := problems + [Problem(problem.value, d)];
      }
    }
  }

  method LinkInput(ss: StatementMap, data: Datasets, item: Input)
    returns (consumed: set<SubjectId>, problem: Option<Code>)
    ensures consumed == ConsumedBy(ss, item) && problem == InputProblem(ss, data, item)
  {
    consumed, problem := {}, None;
    if item.statementDigest !in ss {
      return {}, Some(PredecessorMissing);
    }
    var subjects := ss[item.statementDigest].subjects;
    var matches: seq<Subject> := [];
    for k := 0 to |subjects|
      invariant matches == Named(subjects[..k], item.subjectName)
    {
      assert subjects[..k + 1][..k] == subjects[..k];
      if subjects[k].name == item.subjectName {
        matches := matches + [subjects[k]];
      }
    }
    assert subjects[..|subjects|] == subjects;
    if |matches| != 1 {
      return {}, Some(PredecessorSubject);
    }
    if item.entryName.None? {
      if matches[0].digest != item.digest {
        problem := Some(InputDigest);
      }
      consumed := {(item.statementDigest, item.subjectName, item.digest)};
    } else {
      var key := (item.statementDigest, item.subjectName, item.entryName.value);
      if key !in data.memberships {
        problem := Some(if (item.statementDigest, item.subjectName) in data.verifiedSubjects
                        then PredecessorSubject else DatasetManifestRequired);
      } else if data.memberships[key] != item.digest {
        problem := Some(InputDigest);
      }
    }
  }

  // What is known after the first k statements, in the order of their digests.
  ghost predicate BuiltUpTo(ss: StatementMap, data: Datasets, order: seq<Digest>, k: nat,
                            preds: Predecessors, consumed: set<SubjectId>, problems: seq<Problem>)
    requires k <= |order| && Elements(order) == ss.Keys
  {
    && preds.Keys == Elements(order[..k])
    && (forall d | d in preds :: d in ss && Ascending(preds[d]) && Elements(preds[d]) == PredecessorSet(ss, d))
    && (forall id: SubjectId :: id in consumed <==>
          exists d, x | d in preds && d in ss && x in LinkedInputs(ss, d) :: id in ConsumedBy(ss, x))
    && (forall p | p in problems :: p.statementDigest in preds)
    && (forall code, d | d in preds && d in ss && code != GraphCycle && code != RootInvalid ::
          Problem(code, d) in problems <==> HasProblem(ss, data, code, d))
    && (forall code, d :: Problem(code, d) in problems ==> code != GraphCycle && code != RootInvalid)
  }

  // The problems of one statement other than cycles and roots.
  method CheckStatement(ss: StatementMap, data: Datasets, d: Digest, duplicate: bool, version: Version)
    returns (values: set<Digest>, consumed: set<SubjectId>, problems: seq<Problem>)
    requires d in ss && IsGraphVersion(ss, version)
    requires duplicate <==> HasProblem(ss, data, EventIdDuplicate, d)
    ensures values == PredecessorSet(ss, d)
    ensures forall id: SubjectId :: id in consumed <==> exists x | x in LinkedInputs(ss, d) :: id in ConsumedBy(ss, x)
    ensures forall p | p in problems :: p.statementDigest == d && p.code != GraphCycle && p.code != RootInvalid
    ensures forall code | code != GraphCycle && code != RootInvalid ::
      Problem(code, d) in problems <==> HasProblem(ss, data, code, d)
  {
    ghost var first :| first in ss && ss[first].version == version && forall x | x in ss :: first <= x;
    assert Mixed(ss, d) <==> ss[d].version != version;
    values, consumed, problems := {}, {}, [];
    if duplicate {
      problems := problems + [Problem(EventIdDuplicate, d)];
    }
    if ss[d].version != version {
      problems := problems + [Problem(PredicateSemanticsUnsupported, d)];
      return;
    }
    if ss[d].kind.Origin? {
      return;
    }
    var inputProblems;
    values, consumed, inputProblems := LinkInputs(ss, data, d, ss[d].inputs);
    problems := problems + inputProblems;
  }

  lemma PrefixElements(order: seq<Digest>, k: nat)
    requires k < |order|
    ensures Elements(order[..k + 1]) == Elements(order[..k]) + {order[k]}
  {
    ElementsAppend(order[..k], order[k]);
    assert order[..k + 1] == order[..k] + [order[k]];
  }

  // The event identifiers of the first k statements.
  ghost predicate EventsUpTo(ss: StatementMap, order: seq<Digest>, k: nat, eventIds: map<string, Digest>)
    requires k <= |order| && Elements(order) == ss.Keys
  {
    forall id: string :: id in eventIds <==>
      exists e | e in ss && e in Elements(order[..k]) :: ss[e].eventId == Some(id)
  }

  lemma AscendingIndex(order: seq<Digest>, i: nat, k: nat)
    requires Ascending(order) && i < |order| && k < |order| && order[i] < order[k]
    ensures i < k
  {
  }

  lemma EarlierInOrder(ss: StatementMap, order: seq<Digest>, k: nat)
    requires Ascending(order) && Elements(order) == ss.Keys && k < |order|
    ensures order[k] in ss
    ensures forall e | e in ss :: e in Elements(order[..k]) <==> e < order[k]
  {
    assert order[k] in Elements(order);
    forall e | e in ss
      ensures e in Elements(order[..k]) <==> e < order[k]
    {
      assert e in Elements(order);
      var i :| 0 <= i < |order| && order[i] == e;
      if e < order[k] {
        AscendingIndex(order, i, k);
        assert order[..k][i] == e;
      }
      if e in Elements(order[..k]) {
        var j :| 0 <= j < k && order[..k][j] == e;
        assert order[j] < order[k];
      }
    }
  }

  lemma {:induction false} BuiltOneMore(ss: StatementMap, data: Datasets, order: seq<Digest>, k: nat,
                     preds: Predecessors, consumed: set<SubjectId>, problems: seq<Problem>,
                     values: seq<Digest>, c: set<SubjectId>, ps: seq<Problem>)
    requires Ascending(order) && Elements(order) == ss.Keys && k < |order| && order[k] in ss
    requires BuiltUpTo(ss, data, order, k, preds, consumed, problems)
    requires Ascending(values) && Elements(values) == PredecessorSet(ss, order[k])
    requires forall id: SubjectId :: id in c <==> exists x | x in LinkedInputs(ss, order[k]) :: id in ConsumedBy(ss, x)
    requires forall p | p in ps :: p.statementDigest == order[k] && p.code != GraphCycle && p.code != RootInvalid
    requires forall code | code != GraphCycle && code != RootInvalid ::
      Problem(code, order[k]) in ps <==> HasProblem(ss, data, code, order[k])
    ensures BuiltUpTo(ss, data, order, k + 1, preds[order[k] := values], consumed + c, problems + ps)
  {
    hide InputProblem, HasProblem, PredecessorSet, LinkedInputs, ConsumedBy, Ascending;
    var d := order[k];
    PrefixElements(order, k);
    assert d !in preds by { NotEarlier(order, k); }
    var preds', consumed' := preds[d := values], consumed + c;
    forall id: SubjectId
      ensures id in consumed' <==>
        exists e, x | e in preds' && e in ss && x in LinkedInputs(ss, e) :: id in ConsumedBy(ss, x)
    {
      if id in c {
        var x :| x in LinkedInputs(ss, d) && id in ConsumedBy(ss, x);
        assert d in preds';
      }
    }
  }

  lemma NotEarlier(order: seq<Digest>, k: nat)
    requires Ascending(order) && k < |order|
    ensures order[k] !in Elements(order[..k])
  {
  }

  // Record an event identifier; true if an earlier statement has it.
  method RecordEvent(ss: StatementMap, data: Datasets, order: seq<Digest>, k: nat, eventIds0: map<string, Digest>)
    returns (eventIds: map<string, Digest>, duplicate: bool)
    requires Ascending(order) && Elements(order) == ss.Keys && k < |order| && order[k] in ss
    requires EventsUpTo(ss, order, k, eventIds0)
    ensures EventsUpTo(ss, order, k + 1, eventIds)
    ensures duplicate <==> HasProblem(ss, data, EventIdDuplicate, order[k])
  {
    hide Ascending, Elements;
    var digest := order[k];
    EarlierInOrder(ss, order, k);
    PrefixElements(order, k);
    eventIds, duplicate := eventIds0, false;
    if ss[digest].eventId.Some? {
      if ss[digest].eventId.value in eventIds {
        duplicate := true;
      } else {
        eventIds := eventIds[ss[digest].eventId.value := digest];
      }
    }
  }

  lemma BuiltNone(ss: StatementMap, data: Datasets, order: seq<Digest>)
    requires Elements(order) == ss.Keys
    ensures BuiltUpTo(ss, data, order, 0, map[], {}, []) && EventsUpTo(ss, order, 0, map[])
  {
  }

  method BuildGraph(ss: StatementMap, data: Datasets) returns (g: GraphResult)
    ensures IsGraph(ss, data, g)
  {
    hide BuiltUpTo, EventsUpTo, Ascending, HasProblem, IsGraph, PredecessorSet, ConsumedBy, LinkedInputs;
    var order := Sorted(ss.Keys);
    BuiltNone(ss, data, order);
    var preds: Predecessors, consumed: set<SubjectId>, problems: seq<Problem> := map[], {}, [];
    var eventIds: map<string, Digest> := map[];
    var graphVersion: Option<Version> := None;
    for k := 0 to |order|
      invariant BuiltUpTo(ss, data, order, k, preds, consumed, problems)
      invariant EventsUpTo(ss, order, k, eventIds)
      invariant if graphVersion.None? then k == 0 else IsGraphVersion(ss, graphVersion.value)
    {
      var digest := order[k];
      assert digest in Elements(order);
      var duplicate;
      eventIds, duplicate := RecordEvent(ss, data, order, k, eventIds);
      if graphVersion.None? {
        graphVersion := Some(ss[digest].version);
        FirstIsLeast(ss, order);
      }
      var values, c, ps := CheckStatement(ss, data, digest, duplicate, graphVersion.value);
      var sorted := Sorted(values);
      BuiltOneMore(ss, data, order, k, preds, consumed, problems, sorted, c, ps);
      preds := preds[digest := sorted];
      consumed := consumed + c;
      problems := problems + ps;
    }
    g := FinishGraph(ss, data, preds, consumed, problems, order);
  }

  lemma FirstIsLeast(ss: StatementMap, order: seq<Digest>)
    requires Ascending(order) && Elements(order) == ss.Keys && order != [] && order[0] in ss
    ensures IsGraphVersion(ss, ss[order[0]].version)
  {
    forall x | x in ss ensures order[0] <= x {
      assert x in Elements(order);
    }
  }

  function CycleProblems(members: seq<Digest>): seq<Problem> {
    if members == [] then []
    else CycleProblems(members[..|members| - 1]) + [Problem(GraphCycle, members[|members| - 1])]
  }

  lemma {:induction false} CycleProblemsAre(members: seq<Digest>)
    ensures forall p :: p in CycleProblems(members) <==> p.code == GraphCycle && p.statementDigest in members
  {
    if members != [] {
      CycleProblemsAre(members[..|members| - 1]);
      assert members == members[..|members| - 1] + [members[|members| - 1]];
    }
  }

  method AddCycleProblems(problems0: seq<Problem>, preds: Predecessors)
    returns (problems: seq<Problem>, ghost members: seq<Digest>)
    ensures problems == problems0 + CycleProblems(members)
    ensures MarksCycles(preds, Elements(members))
    ensures members == [] <==> IsAcyclic(preds)
  {
    hide MarksCycles, OnCycle, IsAcyclic, Ascending, CyclesAreApart;
    problems := problems0;
    var cycleMembers := CycleMembers(preds);
    for k := 0 to |cycleMembers|
      invariant problems == problems0 + CycleProblems(cycleMembers[..k])
    {
      assert cycleMembers[..k + 1][..k] == cycleMembers[..k];
      problems := problems + [Problem(GraphCycle, cycleMembers[k])];
    }
    assert cycleMembers[..|cycleMembers|] == cycleMembers;
    members := cycleMembers;
  }

  ghost predicate IsBadRoot(ss: StatementMap, roots: seq<Digest>, p: Problem) {
    p.code == RootInvalid && p.statementDigest in roots && p.statementDigest in ss
      && ss[p.statementDigest].kind.Transform?
  }

  method AddRootProblems(ss: StatementMap, problems0: seq<Problem>, roots: seq<Digest>) returns (problems: seq<Problem>)
    requires Elements(roots) <= ss.Keys
    ensures forall p :: p in problems <==> (p in problems0 || IsBadRoot(ss, roots, p))
  {
    problems := problems0;
    for k := 0 to |roots|
      invariant forall p :: p in problems <==> (p in problems0 || IsBadRoot(ss, roots[..k], p))
    {
      assert roots[k] in Elements(roots);
      assert roots[..k + 1] == roots[..k] + [roots[k]];
      if ss[roots[k]].kind != Origin {
        problems := problems + [Problem(RootInvalid, roots[k])];
      }
    }
    assert roots[..|roots|] == roots;
  }

  // Cycles, roots and heads.
  method FinishGraph(ss: StatementMap, data: Datasets, preds: Predecessors, consumed: set<SubjectId>,
                     problems0: seq<Problem>, order: seq<Digest>)
    returns (g: GraphResult)
    requires Ascending(order) && Elements(order) == ss.Keys
    requires BuiltUpTo(ss, data, order, |order|, preds, consumed, problems0)
    ensures IsGraph(ss, data, g)
  {
    hide BuiltUpTo, OnCycle, IsCycle, IsAcyclic, MarksCycles, IsGraph, Ascending, Elements, IsBadRoot;
    BuiltAll(ss, data, order, preds, consumed, problems0);
    var problems, members := AddCycleProblems(problems0, preds);
    var roots := Sorted(set d | d in preds && preds[d] == []);
    problems := AddRootProblems(ss, problems, roots);
    var heads := Sorted(set d | d in ss && exists s | s in ss[d].subjects :: (d, s.name, s.digest) !in consumed);
    g := GraphResult(roots, heads, order, preds, consumed, problems);
    CycleProblemsAre(members);
    FinishedProblems(ss, data, problems0, members, g);
    FinishedHeads(ss, data, problems0, g);
  }

  lemma BuiltAll(ss: StatementMap, data: Datasets, order: seq<Digest>, preds: Predecessors, consumed: set<SubjectId>,
          problems: seq<Problem>)
    requires Elements(order) == ss.Keys && BuiltUpTo(ss, data, order, |order|, preds, consumed, problems)
    ensures RightPredecessors(ss, preds)
    ensures forall id: SubjectId :: id in consumed <==> IsConsumed(ss, id)
    ensures (set d | d in preds && preds[d] == []) <= ss.Keys
    ensures forall p | p in problems :: p.statementDigest in ss && p.code != GraphCycle && p.code != RootInvalid
    ensures forall code, d | d in ss && code != GraphCycle && code != RootInvalid ::
      Problem(code, d) in problems <==> HasProblem(ss, data, code, d)
  {
    hide HasProblem, PredecessorSet, LinkedInputs, ConsumedBy, Ascending;
    assert order[..|order|] == order;
    forall p | p in problems
      ensures p.statementDigest in ss && p.code != GraphCycle && p.code != RootInvalid
    {
      assert Problem(p.code, p.statementDigest) in problems;
    }
    forall id: SubjectId
      ensures id in consumed <==> IsConsumed(ss, id)
    {
      if IsConsumed(ss, id) {
        var d, x :| d in ss && x in LinkedInputs(ss, d) && id in ConsumedBy(ss, x);
        assert d in preds;
      }
    }
  }

  lemma {:induction false} RootsAreSources(ss: StatementMap, g: GraphResult)
    requires RightPredecessors(ss, g.predecessors)
    requires Elements(g.roots) == set d | d in g.predecessors && g.predecessors[d] == []
    ensures Elements(g.roots) == set d | d in ss && PredecessorSet(ss, d) == {}
  {
    hide PredecessorSet;
    forall d | d in ss
      ensures PredecessorSet(ss, d) == {} <==> g.predecessors[d] == []
    {
      if g.predecessors[d] != [] { assert g.predecessors[d][0] in Elements(g.predecessors[d]); }
    }
  }

  lemma {:induction false} FinishedProblems(ss: StatementMap, data: Datasets, problems0: seq<Problem>,
          members: seq<Digest>, g: GraphResult)
    requires RightPredecessors(ss, g.predecessors)
    requires forall p | p in problems0 :: p.statementDigest in ss && p.code != GraphCycle && p.code != RootInvalid
    requires forall code, d | d in ss && code != GraphCycle && code != RootInvalid ::
      Problem(code, d) in problems0 <==> HasProblem(ss, data, code, d)
    requires MarksCycles(g.predecessors, Elements(members))
    requires members == [] <==> IsAcyclic(g.predecessors)
    requires forall p :: p in CycleProblems(members) <==> p.code == GraphCycle && p.statementDigest in members
    requires Elements(g.roots) == set d | d in g.predecessors && g.predecessors[d] == []
    requires forall p :: p in g.problems <==> (p in problems0 + CycleProblems(members) || IsBadRoot(ss, g.roots, p))
    ensures RightProblems(ss, data, g)
  {
    hide PredecessorSet, IsAcyclic, CycleProblems, RightPredecessors, OnCycle, MarksCycles;
    RootsAreSources(ss, g);
    MarkedIsOnCycle(g.predecessors, Elements(members));
    forall d | d in members
      ensures d in ss && Problem(GraphCycle, d) in g.problems
    {
      CycleInside(ss, g.predecessors, d);
    }
    if members != [] {
      assert members[0] in members;
    }
    ReportedAre(g, members);
    forall code, d | d in ss && code != GraphCycle
      ensures Problem(code, d) in g.problems <==> HasProblem(ss, data, code, d)
    {
      if code == RootInvalid {
        assert d in g.roots <==> d in Elements(g.roots);
      } else {
        hide HasProblem;
        assert Problem(code, d) in problems0 <==> HasProblem(ss, data, code, d);
      }
    }
  }

  lemma ReportedAre(g: GraphResult, members: seq<Digest>)
    requires forall d :: Problem(GraphCycle, d) in g.problems <==> d in members
    ensures ReportedCycles(g) == Elements(members)
  {
    forall d
      ensures d in ReportedCycles(g) <==> d in members
    {
      if d in members {
        assert Problem(GraphCycle, d) in g.problems;
      }
      if d in ReportedCycles(g) {
        var p :| p in g.problems && p.code == GraphCycle && p.statementDigest == d;
        assert p == Problem(GraphCycle, d);
      }
    }
  }

  lemma CycleInside(ss: StatementMap, preds: Predecessors, d: Digest)
    requires RightPredecessors(ss, preds) && OnCycle(preds, d)
    ensures d in ss
  {
    var w: seq<Digest> :| IsCycle(preds, w) && w[0] == d;
  }

  lemma {:induction false} FinishedHeads(ss: StatementMap, data: Datasets, problems0: seq<Problem>, g: GraphResult)
    requires RightPredecessors(ss, g.predecessors) && RightProblems(ss, data, g)
    requires Ascending(g.reachable) && Elements(g.reachable) == ss.Keys
    requires forall id: SubjectId :: id in g.consumedSubjects <==> IsConsumed(ss, id)
    requires Ascending(g.roots) && Elements(g.roots) == set d | d in g.predecessors && g.predecessors[d] == []
    requires Ascending(g.heads)
    requires Elements(g.heads) == set d | d in ss && exists s | s in ss[d].subjects ::
      (d, s.name, s.digest) !in g.consumedSubjects
    ensures IsGraph(ss, data, g)
  {
    hide RightPredecessors, HasProblem, IsConsumed, PredecessorSet, Ascending, IsAcyclic, OnCycle, IsCycle, MarksCycles;
    RootsAreSources(ss, g);
    forall d | d in ss
      ensures IsTerminal(ss, d) <==> exists s | s in ss[d].subjects :: (d, s.name, s.digest) !in g.consumedSubjects
    {
    }
  }

  // ---------------------------------------------------------------------
  // Main results: what a graph without problems guarantees
  // ---------------------------------------------------------------------

  ghost predicate IsValidGraph(ss: StatementMap, data: Datasets, g: GraphResult) {
    IsGraph(ss, data, g) && g.problems == []
  }

  lemma NoProblem(ss: StatementMap, data: Datasets, g: GraphResult, code: Code, d: Digest)
    requires IsValidGraph(ss, data, g) && d in ss && code != GraphCycle
    ensures !HasProblem(ss, data, code, d)
  {
    assert Problem(code, d) !in g.problems;
  }

  lemma InputProblemCodes(ss: StatementMap, data: Datasets, x: Input)
    requires InputProblem(ss, data, x).Some?
    ensures InputProblem(ss, data, x).value in {PredecessorMissing, PredecessorSubject, InputDigest,
      DatasetManifestRequired}
  {
    hide Named;
  }

  lemma NoInputProblem(ss: StatementMap, data: Datasets, g: GraphResult, d: Digest, x: Input)
    requires IsValidGraph(ss, data, g) && d in ss && x in LinkedInputs(ss, d)
    ensures InputProblem(ss, data, x) == None
  {
    hide InputProblem, IsValidGraph;
    if InputProblem(ss, data, x).Some? {
      InputProblemCodes(ss, data, x);
      NoProblem(ss, data, g, InputProblem(ss, data, x).value, d);
    }
  }

  lemma EveryInputIsLinked(ss: StatementMap, data: Datasets, g: GraphResult, d: Digest, x: Input)
    requires IsValidGraph(ss, data, g) && d in ss && ss[d].kind.Transform? && x in ss[d].inputs
    ensures x in LinkedInputs(ss, d) && x.statementDigest in g.predecessors[d]
  {
    hide InputProblem;
    NoProblem(ss, data, g, PredicateSemanticsUnsupported, d);
    assert x.statementDigest in PredecessorSet(ss, d);
  }

  // Every edge ends at a present statement that has exactly one subject of the
  // named kind, and the input's digest is that subject's or the dataset member's.
  lemma {:induction false} EdgesAgree(ss: StatementMap, data: Datasets, g: GraphResult, d: Digest, x: Input)
    requires IsValidGraph(ss, data, g) && d in ss && ss[d].kind.Transform? && x in ss[d].inputs
    ensures x.statementDigest in ss && x.statementDigest in g.predecessors[d]
    ensures |Named(ss[x.statementDigest].subjects, x.subjectName)| == 1
    ensures x.entryName.None? ==> Subject(x.subjectName, x.digest) in ss[x.statementDigest].subjects
    ensures x.entryName.Some? ==>
      var key := (x.statementDigest, x.subjectName, x.entryName.value);
      key in data.memberships && data.memberships[key] == x.digest
  {
    hide IsValidGraph, LinkedInputs, Named;
    EveryInputIsLinked(ss, data, g, d, x);
    NoInputProblem(ss, data, g, d, x);
    NamedAre(ss[x.statementDigest].subjects, x.subjectName);
  }

  lemma {:induction false} NamedAre(subjects: seq<Subject>, name: string)
    ensures forall s | s in Named(subjects, name) :: s in subjects && s.name == name
  {
    if subjects != [] {
      NamedAre(subjects[..|subjects| - 1], name);
    }
  }

  lemma ValidIsAcyclic(ss: StatementMap, data: Datasets, g: GraphResult)
    requires IsValidGraph(ss, data, g)
    ensures IsAcyclic(g.predecessors) && g.predecessors.Keys == ss.Keys
  {
    hide IsAcyclic, OnCycle, HasProblem;
  }

  lemma {:induction false} PredecessorsPresent(ss: StatementMap, data: Datasets, g: GraphResult, d: Digest, p: Digest)
    requires IsValidGraph(ss, data, g) && d in ss && d in g.predecessors && p in g.predecessors[d]
    ensures p in ss
  {
    hide HasProblem, InputProblem;
    assert p in Elements(g.predecessors[d]);
    var x :| x in LinkedInputs(ss, d) && x.statementDigest == p;
    EdgesAgree(ss, data, g, d, x);
  }

  lemma {:induction false} SourcesAreOrigins(ss: StatementMap, data: Datasets, g: GraphResult, d: Digest)
    requires IsValidGraph(ss, data, g) && d in ss && d in g.predecessors
    ensures g.predecessors[d] == [] <==> ss[d].kind.Origin?
  {
    NoProblem(ss, data, g, RootInvalid, d);
    assert Elements(g.predecessors[d]) == PredecessorSet(ss, d);
    if g.predecessors[d] != [] { assert g.predecessors[d][0] in Elements(g.predecessors[d]); }
  }

  // Every backward walk is finite, never leaves the bundle, and can stop
  // only, and does stop, at an origin.
  lemma {:induction false} HistoryEndsAtOrigin(ss: StatementMap, data: Datasets, g: GraphResult, w: seq<Digest>)
    requires IsValidGraph(ss, data, g) && IsWalk(g.predecessors, w)
    ensures |w| <= |ss|
    ensures var last := w[|w| - 1];
      && last in ss
      && (forall p | p in g.predecessors[last] :: IsWalk(g.predecessors, w + [p]))
      && (g.predecessors[last] == [] <==> ss[last].kind.Origin?)
  {
    hide IsValidGraph, IsAcyclic;
    var last := w[|w| - 1];
    ValidIsAcyclic(ss, data, g);
    AcyclicWalksAreShort(g.predecessors, w);
    SameCount(g.predecessors, ss);
    forall p | p in g.predecessors[last]
      ensures IsWalk(g.predecessors, w + [p])
    {
      PredecessorsPresent(ss, data, g, last, p);
    }
    SourcesAreOrigins(ss, data, g, last);
  }

  lemma SameCount(preds: Predecessors, ss: StatementMap)
    requires preds.Keys == ss.Keys
    ensures |preds| == |ss|
  {
    assert |preds| == |preds.Keys| && |ss| == |ss.Keys|;
  }

  // ... so every statement has a walk to an origin.
  lemma {:induction false} WalkToOrigin(ss: StatementMap, data: Datasets, g: GraphResult, w: seq<Digest>)
    returns (longer: seq<Digest>)
    requires IsValidGraph(ss, data, g) && IsWalk(g.predecessors, w)
    ensures IsWalk(g.predecessors, longer) && w <= longer
    ensures longer[|longer| - 1] in ss && ss[longer[|longer| - 1]].kind.Origin?
    decreases |ss| - |w|
  {
    HistoryEndsAtOrigin(ss, data, g, w);
    var last := w[|w| - 1];
    if g.predecessors[last] == [] {
      longer := w;
    } else {
      var p := g.predecessors[last][0];
      HistoryEndsAtOrigin(ss, data, g, w + [p]);
      longer := WalkToOrigin(ss, data, g, w + [p]);
    }
  }

  lemma FirstIsPresent(preds: Predecessors, w: seq<Digest>)
    requires IsWalk(preds, w)
    ensures w != [] && w[0] in preds
  {
  }

  lemma SingletonWalk(preds: Predecessors, d: Digest)
    requires d in preds
    ensures IsWalk(preds, [d])
  {
  }

  // A statement that is not terminal has a successor.
  lemma Consumer(ss: StatementMap, data: Datasets, g: GraphResult, first: Digest) returns (d: Digest)
    requires IsValidGraph(ss, data, g) && first in ss && ss[first].subjects != [] && !IsTerminal(ss, first)
    ensures d in ss && d in g.predecessors && first in g.predecessors[d]
  {
    hide HasProblem, InputProblem, LinkedInputs;
    var s := ss[first].subjects[0];
    assert IsConsumed(ss, (first, s.name, s.digest));
    var x;
    d, x :| d in ss && x in LinkedInputs(ss, d) && (first, s.name, s.digest) in ConsumedBy(ss, x);
    assert first in PredecessorSet(ss, d);
    assert first in Elements(g.predecessors[d]);
  }

  // A walk can be prolonged to the front until it starts at a head.
  lemma {:induction false} WalkFromHead(ss: StatementMap, data: Datasets, g: GraphResult, w: seq<Digest>)
    returns (longer: seq<Digest>)
    requires IsValidGraph(ss, data, g) && IsWalk(g.predecessors, w)
    requires forall d | d in ss :: ss[d].subjects != []
    ensures IsWalk(g.predecessors, longer) && longer[|longer| - 1] == w[|w| - 1]
    ensures longer[0] in Elements(g.heads)
    decreases |ss| - |w|
  {
    hide IsWalk, IsTerminal;
    HistoryEndsAtOrigin(ss, data, g, w);
    FirstIsPresent(g.predecessors, w);
    var first := w[0];
    if IsTerminal(ss, first) {
      longer := w;
    } else {
      var d := Consumer(ss, data, g, first);
      SingletonWalk(g.predecessors, d);
      JoinWalks(g.predecessors, [d], w);
      HistoryEndsAtOrigin(ss, data, g, [d] + w);
      longer := WalkFromHead(ss, data, g, [d] + w);
    }
  }

  lemma {:induction false} WalkStaysReached(preds: Predecessors, s: set<Digest>, w: seq<Digest>)
    requires ClosedUnder(preds, s) && IsWalk(preds, w) && w[0] in s
    ensures w[|w| - 1] in s
    decreases |w|
  {
    if |w| > 1 {
      SubWalk(preds, w, 0, |w| - 1);
      WalkStaysReached(preds, s, w[..|w| - 1]);
      assert w[|w| - 1] in preds[w[|w| - 2]];
    }
  }

  // In a graph without problems the heads reach exactly the statements.
  lemma {:induction false} HeadsReachEverything(ss: StatementMap, data: Datasets, g: GraphResult, reached: set<Digest>)
    requires IsValidGraph(ss, data, g) && IsReachable(g.heads, g.predecessors, reached)
    requires forall d | d in ss :: ss[d].subjects != []
    ensures reached == ss.Keys
  {
    forall d | d in ss
      ensures d in reached
    {
      var w := WalkFromHead(ss, data, g, [d]);
      WalkStaysReached(g.predecessors, reached, w);
    }
    assert ClosedUnder(g.predecessors, ss.Keys) by {
      forall x, p | x in ss && p in g.predecessors[x]
        ensures p in ss
      {
        HistoryEndsAtOrigin(ss, data, g, [x]);
        assert IsWalk(g.predecessors, [x] + [p]) && ([x] + [p])[1] == p;
      }
    }
    assert Elements(g.heads) <= ss.Keys;
  }
}
