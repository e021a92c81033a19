/** `CompiledPattern.search`: breadth-first simulation with an operation budget. */
module PatternSearch {
  import opened Wrappers
  import opened PatternSyntax
  import opened PatternLayout
  import opened PatternMachine
  import opened PatternMeaning

  // Every set pointer stays inside the table, and every atom is one.
  predicate Linked(machine: seq<State>) {
    forall q | 0 <= q < |machine| ::
      && (machine[q].out.Some? ==> machine[q].out.value < |machine|)
      && (machine[q].out1.Some? ==> machine[q].out1.value < |machine|)
      && (machine[q].kind.Atom? ==> IsAtom(machine[q].kind.node))
  }

  predicate InRange(states: set<nat>, n: nat) {
    forall q | q in states :: q < n
  }

  lemma {:induction false} SizeInRange(states: set<nat>, n: nat)
    requires InRange(states, n)
    ensures |states| <= n
    decreases n
  {
    if n == 0 {
      assert states == {};
    } else {
      SizeInRange(states - {n - 1}, n - 1);
    }
  }

  // A state that waits for a character.
  predicate Consumes(state: State) {
    state.kind.Atom? && !state.kind.node.AnchorNode?
  }

  // ---------------------------------------------------------------------
  // add_state: the closure of one state under moves that consume nothing
  // ---------------------------------------------------------------------

  ghost predicate SomeAccepts(machine: seq<State>, value: string, states: set<nat>, position: nat) {
    exists q | q in states :: Accepts(machine, value, Some(q), position)
  }

  predicate Seen(q: Option<nat>, visited: set<nat>, pending: seq<nat>) {
    q.Some? ==> q.value in visited || q.value in pending
  }

  // A visited state has been dealt with: it is a target, a match, or its
  // successors have been seen.
  predicate Handled(machine: seq<State>, value: string, position: nat,
                    q: nat, visited: set<nat>, pending: seq<nat>, target: set<nat>, matched: bool)
    requires Linked(machine) && q < |machine|
  {
    var state := machine[q];
    match state.kind
    case Split => Seen(state.out, visited, pending) && Seen(state.out1, visited, pending)
    case Match => matched
    case Atom(node) =>
      if node.AnchorNode? then AtomSpans(node, value, position, position) ==> Seen(state.out, visited, pending)
      else q in target
  }

  // With nothing pending, a visited state that accepts is already accounted for.
  lemma {:induction false} ClosureIsComplete(machine: seq<State>, value: string, position: nat,
                         q: nat, n: nat, visited: set<nat>, target: set<nat>, matched: bool)
    requires Linked(machine) && InRange(visited, |machine|)
    requires forall v | v in visited :: Handled(machine, value, position, v, visited, [], target, matched)
    requires q in visited && AcceptsIn(machine, value, Some(q), position, n)
    ensures matched || SomeAccepts(machine, value, target, position)
    decreases n
  {
    var state := machine[q];
    match state.kind
    case Split =>
      if AcceptsIn(machine, value, state.out, position, n - 1) {
        ClosureIsComplete(machine, value, position, state.out.value, n - 1, visited, target, matched);
      } else {
        ClosureIsComplete(machine, value, position, state.out1.value, n - 1, visited, target, matched);
      }
    case Match =>
    case Atom(node) =>
      if node.AnchorNode? {
        ClosureIsComplete(machine, value, position, state.out.value, n - 1, visited, target, matched);
      } else {
        assert Accepts(machine, value, Some(q), position);
      }
  }

  lemma HandledGrows(machine: seq<State>, value: string, position: nat,
                     visited: set<nat>, pending: seq<nat>, target: set<nat>, matched: bool,
                     visited': set<nat>, pending': seq<nat>, target': set<nat>, matched': bool)
    requires Linked(machine) && InRange(visited, |machine|)
    requires visited <= visited' && target <= target' && (matched ==> matched')
    requires forall q | q in pending :: q in visited' || q in pending'
    requires forall v | v in visited :: Handled(machine, value, position, v, visited, pending, target, matched)
    ensures forall v | v in visited :: Handled(machine, value, position, v, visited', pending', target', matched')
  {
    hide AtomSpans;
  }

  // A state is handled once it is matched, kept, or all it pushes is pending.
  lemma HandledNow(machine: seq<State>, value: string, position: nat, v: nat,
                   visited: set<nat>, pending: seq<nat>, target: set<nat>, matched: bool)
    requires Linked(machine) && v < |machine|
    requires machine[v].kind.Match? ==> matched
    requires Consumes(machine[v]) ==> v in target
    requires forall q | q in Pushed(machine[v], value, position) :: q in pending
    ensures Handled(machine, value, position, v, visited, pending, target, matched)
  {
    var state, pushed := machine[v], Pushed(machine[v], value, position);
    if state.kind.Split? {
      assert state.out.Some? ==> pushed[0] == state.out.value;
      assert state.out1.Some? ==> pushed[|pushed| - 1] == state.out1.value;
    } else if pushed != [] {
      assert pushed[0] == state.out.value;
    }
  }

  // The next move of an accepting state at the same position.
  lemma AnchorAccepts(machine: seq<State>, value: string, q: nat, i: nat)
    requires Linked(machine) && q < |machine| && i <= |value|
    requires machine[q].kind.Atom? && machine[q].kind.node.AnchorNode?
    ensures Accepts(machine, value, Some(q), i) <==>
      AtomSpans(machine[q].kind.node, value, i, i) && Accepts(machine, value, machine[q].out, i)
  {
    AcceptsAtom(machine, value, q, i);
  }

  method IndexOfMinimum(pending: seq<nat>) returns (k: nat)
    requires pending != []
    ensures k < |pending| && forall j | 0 <= j < |pending| :: pending[k] <= pending[j]
  {
    k := 0;
    for j := 1 to |pending|
      invariant k < |pending| && forall h | 0 <= h < j :: pending[k] <= pending[h]
    {
      if pending[j] < pending[k] { k := j; }
    }
  }

  lemma RemoveOne(pending: seq<nat>, k: nat)
    requires k < |pending|
    ensures forall q | q in pending :: q == pending[k] || q in pending[..k] + pending[k + 1..]
    ensures forall q | q in pending[..k] + pending[k + 1..] :: q in pending
  {
  }

  // The states that the source pushes when it expands a state.
  function Pushed(state: State, value: string, position: nat): (r: seq<nat>)
    requires state.kind.Atom? ==> IsAtom(state.kind.node)
  {
    if state.kind.Split? then AsSeq(state.out) + AsSeq(state.out1)
    else if state.kind.Atom? && state.kind.node.AnchorNode? && AtomSpans(state.kind.node, value, position, position)
    then AsSeq(state.out)
    else []
  }

  function AsSeq(q: Option<nat>): seq<nat> {
    if q.Some? then [q.value] else []
  }

  lemma PushedAccepts(machine: seq<State>, value: string, q: nat, position: nat)
    requires Linked(machine) && q < |machine| && position <= |value| && !Consumes(machine[q]) && !machine[q].kind.Match?
    ensures forall s | s in Pushed(machine[q], value, position) ::
      s < |machine| && (Accepts(machine, value, Some(s), position) ==> Accepts(machine, value, Some(q), position))
  {
    if machine[q].kind.Split? {
      AcceptsSplit(machine, value, q, position);
    } else {
      AnchorAccepts(machine, value, q, position);
    }
  }

  // What is still to be shown to accept is what was to be shown at the start.
  ghost predicate Owed(machine: seq<State>, value: string, position: nat, goal: bool,
                       pending: seq<nat>, target: set<nat>, matched: bool)
  {
    && (matched ==> goal)
    && (forall q | q in target :: Accepts(machine, value, Some(q), position) ==> goal)
    && (forall q | q in pending :: Accepts(machine, value, Some(q), position) ==> goal)
  }

  datatype Closure = Closure(target: set<nat>, matched: bool, operations: nat, exceeded: bool)

  method AddState(machine: seq<State>, value: string, target0: set<nat>, index: Option<nat>, position: nat,
                  matched0: bool, operations0: nat, maxOperations: int)
    returns (r: Closure)
    requires Linked(machine) && position <= |value|
    requires InRange(target0, |machine|) && forall q | q in target0 :: Consumes(machine[q])
    requires index.Some? ==> index.value < |machine|
    ensures operations0 <= r.operations <= operations0 + |machine|
    ensures r.exceeded ==> r.operations > maxOperations
    ensures !r.exceeded ==> InRange(r.target, |machine|) && forall q | q in r.target :: Consumes(machine[q])
    ensures !r.exceeded ==>
      (r.matched || SomeAccepts(machine, value, r.target, position) <==>
       matched0 || SomeAccepts(machine, value, target0, position) || Accepts(machine, value, index, position))
  {
    hide Handled, AtomSpans, Accepts;
    var target: set<nat>, matched, operations: nat := target0, matched0, operations0;
    var pending: seq<nat>, visited: set<nat> := AsSeq(index), {};
    ghost var goal :=
      matched0 || SomeAccepts(machine, value, target0, position) || Accepts(machine, value, index, position);
    while pending != []
      invariant InRange(visited, |machine|) && InRange(target, |machine|)
      invariant forall k | 0 <= k < |pending| :: pending[k] < |machine|
      invariant forall q | q in target :: Consumes(machine[q])
      invariant target0 <= target && (matched0 ==> matched)
      invariant operations == operations0 + |visited|
      invariant Seen(index, visited, pending)
      invariant forall v | v in visited :: Handled(machine, value, position, v, visited, pending, target, matched)
      invariant Owed(machine, value, position, goal, pending, target, matched)
      decreases |machine| - |visited|, |pending|
    {
      SizeInRange(visited, |machine|);
      var k := IndexOfMinimum(pending);
      var stateIndex := pending[k];
      assert stateIndex in pending;
      RemoveOne(pending, k);
      ghost var oldPending, oldVisited, oldTarget, oldMatched := pending, visited, target, matched;
      pending := pending[..k] + pending[k + 1..];
      if stateIndex in visited {
        HandledGrows(machine, value, position, oldVisited, oldPending, target, matched, visited, pending, target,
          matched);
        continue;
      }
      visited := visited + {stateIndex};
      SizeInRange(visited, |machine|);
      operations := operations + 1;
      if operations > maxOperations {
        return Closure(target, matched, operations, true);
      }
      var state := machine[stateIndex];
      if state.kind.Split? || (state.kind.Atom? && state.kind.node.AnchorNode?) {
        PushedAccepts(machine, value, stateIndex, position);
        assert forall j | 0 <= j < |Pushed(state, value, position)| ::
          Pushed(state, value, position)[j] in Pushed(state, value, position);
        pending := pending + Pushed(state, value, position);
      } else if state.kind.Match? {
        AcceptsMatch(machine, value, stateIndex, position);
        matched := true;
      } else {
        target := target + {stateIndex};
      }
      HandledGrows(machine, value, position, oldVisited, oldPending, oldTarget, oldMatched, visited, pending, target,
        matched);
      HandledNow(machine, value, position, stateIndex, visited, pending, target, matched);
    }
    SizeInRange(visited, |machine|);
    ClosureMeetsGoal(machine, value, position, index, visited, target, matched);
    r := Closure(target, matched, operations, false);
  }

  lemma AcceptsMatch(machine: seq<State>, value: string, q: nat, i: nat)
    requires q < |machine| && machine[q].kind.Match? && i <= |value|
    ensures Accepts(machine, value, Some(q), i)
  {
    assert AcceptsIn(machine, value, Some(q), i, 0);
  }

  lemma ClosureMeetsGoal(machine: seq<State>, value: string, position: nat, index: Option<nat>,
                         visited: set<nat>, target: set<nat>, matched: bool)
    requires Linked(machine) && InRange(visited, |machine|)
    requires forall v | v in visited :: Handled(machine, value, position, v, visited, [], target, matched)
    requires Seen(index, visited, [])
    ensures Accepts(machine, value, index, position) ==> matched || SomeAccepts(machine, value, target, position)
  {
    if Accepts(machine, value, index, position) {
      var n: nat :| AcceptsIn(machine, value, index, position, n);
      ClosureIsComplete(machine, value, position, index.value, n, visited, target, matched);
    }
  }

  // ---------------------------------------------------------------------
  // search
  // ---------------------------------------------------------------------

  datatype SearchError = PatternLimitError

  datatype CompiledPattern = CompiledPattern(pattern: string, states: seq<State>, start: nat)

  // The operation bound for n states and a value of the given length.
  function OperationBound(length: nat, n: nat): nat {
    (length + 1) * n + length * n * n
  }

  ghost predicate AcceptsFrom(machine: seq<State>, value: string, start: nat, from: nat) {
    exists p: nat :: from <= p <= |value| && Accepts(machine, value, Some(start), p)
  }

  lemma {:induction false} Minimum(states: set<nat>) returns (m: nat)
    requires states != {}
    ensures m in states && forall q | q in states :: m <= q
  {
    var q: nat :| q in states;
    var others := states - {q};
    if others == {} {
      assert states == {q};
      m := q;
    } else {
      m := Minimum(others);
      assert states == others + {q};
      if q < m { m := q; }
    }
  }

  method StepActive(machine: seq<State>, value: string, active: set<nat>, position: nat,
                    matched0: bool, operations0: nat, maxOperations: int)
    returns (r: Closure)
    requires Linked(machine) && position < |value|
    requires InRange(active, |machine|) && forall q | q in active :: Consumes(machine[q])
    ensures operations0 <= r.operations <= operations0 + |machine| * |machine|
    ensures r.exceeded ==> r.operations > maxOperations
    ensures !r.exceeded ==> InRange(r.target, |machine|) && forall q | q in r.target :: Consumes(machine[q])
    ensures !r.exceeded ==>
      (r.matched || SomeAccepts(machine, value, r.target, position + 1) <==>
       matched0 || SomeAccepts(machine, value, active, position))
  {
    var character := value[position];
    r := Closure({}, matched0, operations0, false);
    var rest := active;
    SizeInRange(active, |machine|);
    while rest != {}
      invariant rest <= active && |rest| <= |machine|
      invariant !r.exceeded
      invariant operations0 <= r.operations <= operations0 + (|machine| - |rest|) * |machine|
      invariant InRange(r.target, |machine|) && forall q | q in r.target :: Consumes(machine[q])
      invariant r.matched || SomeAccepts(machine, value, r.target, position + 1)
        || SomeAccepts(machine, value, rest, position)
        <==> matched0 || SomeAccepts(machine, value, active, position)
      decreases rest
    {
      ghost var least := Minimum(rest);
      var stateIndex :| stateIndex in rest && forall q | q in rest :: stateIndex <= q;
      ghost var taken := rest;
      rest := rest - {stateIndex};
      var state := machine[stateIndex];
      AcceptsAtom(machine, value, stateIndex, position);
      assert SomeAccepts(machine, value, taken, position) <==>
        SomeAccepts(machine, value, rest, position) || Accepts(machine, value, Some(stateIndex), position);
      OneMore(|machine|, |taken|, operations0, r.operations);
      if CharMatches(state.kind.node, character) {
        assert AtomSpans(state.kind.node, value, position, position + 1);
        r := AddState(machine, value, r.target, state.out, position + 1, r.matched, r.operations, maxOperations);
        if r.exceeded {
          return;
        }
      }
    }
  }

  lemma OneMore(n: nat, left: nat, base: nat, operations: nat)
    requires 0 < left <= n && operations <= base + (n - left) * n
    ensures operations + n <= base + (n - (left - 1)) * n <= base + n * n
  {
    assert (n - (left - 1)) * n == (n - left) * n + n;
    assert (n - (left - 1)) * n + (left - 1) * n == n * n;
    assert (left - 1) * n >= 0;
  }

  method Search(compiled: CompiledPattern, value: string, maxOperations: int) returns (r: Result<bool, SearchError>)
    requires Linked(compiled.states) && compiled.start < |compiled.states|
    ensures r.Ok? ==> (r.value <==> AcceptsFrom(compiled.states, value, compiled.start, 0))
    ensures OperationBound(|value|, |compiled.states|) <= maxOperations ==> r.Ok?
  {
    var machine, start := compiled.states, compiled.start;
    ghost var goal := AcceptsFrom(machine, value, start, 0);
    var c := Closure({}, false, 0, false);
    ghost var n := |machine|;
    var position := 0;
    while true
      invariant position <= |value| && !c.exceeded
      invariant c.operations <= position * (n + n * n)
      invariant InRange(c.target, n) && forall q | q in c.target :: Consumes(machine[q])
      invariant goal <==>
        (c.matched || SomeAccepts(machine, value, c.target, position) || AcceptsFrom(machine, value, start, position))
      decreases |value| - position
    {
      BoundGrows(|value|, n, position);
      assert AcceptsFrom(machine, value, start, position) <==>
        Accepts(machine, value, Some(start), position) || AcceptsFrom(machine, value, start, position + 1);
      c := AddState(machine, value, c.target, Some(start), position, c.matched, c.operations, maxOperations);
      if c.exceeded {
        return Err(PatternLimitError);
      }
      if position == |value| {
        NothingAtEnd(machine, value, c.target);
        return Ok(c.matched);
      }
      c := StepActive(machine, value, c.target, position, c.matched, c.operations, maxOperations);
      if c.exceeded {
        return Err(PatternLimitError);
      }
      position := position + 1;
    }
  }

  lemma BoundShape(length: nat, n: nat)
    ensures OperationBound(length, n) == length * (n + n * n) + n
  {
    assert (length + 1) * n == length * n + n;
    assert length * n * n == length * (n * n);
    assert length * (n + n * n) == length * n + length * (n * n);
  }

  lemma MoreTimes(less: nat, more: nat, each: nat)
    requires less <= more
    ensures less * each <= more * each
  {
    assert more * each == less * each + (more - less) * each;
  }

  lemma BoundGrows(length: nat, n: nat, position: nat)
    requires position <= length
    ensures position * (n + n * n) + n <= OperationBound(length, n)
    ensures position < length ==> (position + 1) * (n + n * n) <= OperationBound(length, n)
    ensures (position + 1) * (n + n * n) == position * (n + n * n) + n + n * n
  {
    hide OperationBound;
    var each: nat := n + n * n;
    BoundShape(length, n);
    MoreTimes(position, length, each);
    if position < length {
      MoreTimes(position + 1, length, each);
    }
    assert (position + 1) * each == position * each + each;
  }

  // At the end of the value a state that waits for a character is lost.
  lemma NothingAtEnd(machine: seq<State>, value: string, target: set<nat>)
    requires Linked(machine) && InRange(target, |machine|) && forall q | q in target :: Consumes(machine[q])
    ensures !SomeAccepts(machine, value, target, |value|)
  {
    forall q | q in target
      ensures !Accepts(machine, value, Some(q), |value|)
    {
      AcceptsAtom(machine, value, q, |value|);
    }
  }

  // ---------------------------------------------------------------------
  // The compiled table is linked
  // ---------------------------------------------------------------------

  // Every pointer of a stretch of code stays below n, and every atom is one.
  predicate Bounded(code: seq<State>, n: nat) {
    forall q | 0 <= q < |code| ::
      && (code[q].out.Some? ==> code[q].out.value < n) && (code[q].out1.Some? ==> code[q].out1.value < n)
      && (code[q].kind.Atom? ==> IsAtom(code[q].kind.node))
  }

  lemma BoundedConcat(a: seq<State>, b: seq<State>, n: nat)
    requires Bounded(a, n) && Bounded(b, n)
    ensures Bounded(a + b, n)
  {
  }

  lemma BoundedLoop(a: Prog, lo: nat, inner: Option<nat>, t: Option<nat>, n: nat)
    requires Bounded(Code(a, lo, inner), n) && lo + Size(a) <= n && (t.Some? ==> t.value < n)
    ensures Bounded(Code(a, lo, inner) + [State(Split, StartOf(a, lo), t)], n)
  {
    hide Code;
    BoundedConcat(Code(a, lo, inner), [State(Split, StartOf(a, lo), t)], n);
  }

  lemma BoundedAlt(a: Prog, b: Prog, lo: nat, t: Option<nat>, n: nat)
    requires Bounded(Code(a, lo, t), n) && Bounded(Code(b, lo + Size(a), t), n) && lo + Size(a) + Size(b) <= n
    ensures Bounded(Code(a, lo, t) + Code(b, lo + Size(a), t)
                    + [State(Split, StartOf(a, lo), StartOf(b, lo + Size(a)))], n)
  {
    hide Code;
    BoundedConcat(Code(a, lo, t), Code(b, lo + Size(a), t), n);
    BoundedConcat(Code(a, lo, t) + Code(b, lo + Size(a), t),
                  [State(Split, StartOf(a, lo), StartOf(b, lo + Size(a)))], n);
  }

  lemma EntryBelow(p: Prog, lo: nat, t: Option<nat>, n: nat)
    requires lo + Size(p) <= n && (t.Some? ==> t.value < n)
    ensures Entry(p, lo, t).Some? ==> Entry(p, lo, t).value < n
  {
  }

  lemma {:induction false} CodeIsBounded(p: Prog, lo: nat, t: Option<nat>, n: nat)
    requires AtomsOnly(p) && lo + Size(p) <= n && (t.Some? ==> t.value < n)
    ensures Bounded(Code(p, lo, t), n)
    decreases p
  {
    hide Bounded, Code, Outs, StartOf, Start, Starts, Entry, IsAtom;
    match p
    case Empty => BoundedAtom(p, lo, t, n);
    case Test(_) => BoundedAtom(p, lo, t, n);
    case Cat(a, b) =>
      CodeOfCat(a, b, lo, t);
      EntryBelow(b, lo + Size(a), t, n);
      CodeIsBounded(a, lo, Entry(b, lo + Size(a), t), n);
      CodeIsBounded(b, lo + Size(a), t, n);
      BoundedConcat(Code(a, lo, Entry(b, lo + Size(a), t)), Code(b, lo + Size(a), t), n);
    case Alt(a, b) =>
      CodeIsBounded(a, lo, t, n);
      CodeIsBounded(b, lo + Size(a), t, n);
      CodeOfAlt(a, b, lo, t);
      BoundedAlt(a, b, lo, t, n);
    case Star(a) =>
      CodeIsBounded(a, lo, Some(lo + Size(a)), n);
      CodeOfLoop(p, a, lo, t);
      BoundedLoop(a, lo, Some(lo + Size(a)), t, n);
    case Plus(a) =>
      CodeIsBounded(a, lo, Some(lo + Size(a)), n);
      CodeOfLoop(p, a, lo, t);
      BoundedLoop(a, lo, Some(lo + Size(a)), t, n);
    case Opt(a) =>
      CodeIsBounded(a, lo, t, n);
      CodeOfOpt(a, lo, t);
      BoundedLoop(a, lo, t, t, n);
  }

  lemma BoundedAtom(p: Prog, lo: nat, t: Option<nat>, n: nat)
    requires (p.Empty? || p.Test?) && AtomsOnly(p) && (t.Some? ==> t.value < n)
    ensures Bounded(Code(p, lo, t), n)
  {
  }

  // The invariants that `compile_pattern` asserts or relies on: the static
  // count is exact and no pointer leaves the table.
  lemma MachineIsLinked(node: Node)
    requires Regular(node)
    ensures Linked(Machine(node)) && MachineStart(node) < |Machine(node)| == StateCount(node) + 1
  {
    LowerKeepsCount(node);
    LowerIsAtoms(node);
    CodeIsBounded(Lower(node), 0, Some(Size(Lower(node))), Size(Lower(node)) + 1);
  }

  // Main result: searching with the compiled machine decides the pattern.
  lemma {:induction false} SearchDecidesPattern(node: Node, value: string)
    requires Regular(node)
    ensures AcceptsFrom(Machine(node), value, MachineStart(node), 0) <==> Matches(node, false, value)
  {
    if AcceptsFrom(Machine(node), value, MachineStart(node), 0) {
      var p: nat :| p <= |value| && Accepts(Machine(node), value, Some(MachineStart(node)), p);
      var j := AcceptedIsSpan(node, value, p);
      SpanMatches(node, false, value, p, j);
    }
    if Matches(node, false, value) {
      var i, j := MatchWitness(node, false, value);
      SpanIsAccepted(node, value, i, j);
    }
  }

  lemma SpanMatches(node: Node, strict: bool, value: string, i: nat, j: nat)
    requires i <= |value| && Spans(node, strict, value, i, j)
    ensures Matches(node, strict, value)
  {
  }

  lemma MatchWitness(node: Node, strict: bool, value: string) returns (i: nat, j: nat)
    requires Matches(node, strict, value)
    ensures i <= |value| && Spans(node, strict, value, i, j)
  {
    i, j :| i <= |value| && Spans(node, strict, value, i, j);
  }
}
