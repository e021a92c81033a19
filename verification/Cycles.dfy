/** The cycle finder of the statement graph (src/makoto/graph.py, `_cycle_members`). */
module Cycles {
  import opened Statements

  type Predecessors = map<Digest, seq<Digest>>

  // ---------------------------------------------------------------------
  // Walks
  // ---------------------------------------------------------------------

  // A backward walk among present statements.
  predicate IsWalk(preds: Predecessors, w: seq<Digest>) {
    && w != []
    && (forall i | 0 <= i < |w| :: w[i] in preds)
    && (forall i | 0 <= i < |w| - 1 :: w[i + 1] in preds[w[i]])
  }

  // A walk that ends where it started.
  predicate IsCycle(preds: Predecessors, w: seq<Digest>) {
    IsWalk(preds, w) && |w| >= 2 && w[0] == w[|w| - 1]
  }

  ghost predicate OnCycle(preds: Predecessors, x: Digest) {
    exists w: seq<Digest> :: IsCycle(preds, w) && w[0] == x
  }

  // A cycle through x all of whose nodes are marked.
  ghost predicate OnMarkedCycle(preds: Predecessors, x: Digest, marked: set<Digest>) {
    exists w: seq<Digest> :: IsCycle(preds, w) && w[0] == x && forall y | y in w :: y in marked
  }

  // Marked nodes lie on wholly marked cycles, and every cycle has a marked node.
  ghost predicate MarksCycles(preds: Predecessors, marked: set<Digest>) {
    && (forall x | x in marked :: OnMarkedCycle(preds, x, marked))
    && (forall w | IsCycle(preds, w) :: exists x | x in w :: x in marked)
  }

  ghost predicate IsAcyclic(preds: Predecessors) {
    forall x :: !OnCycle(preds, x)
  }

  lemma JoinWalks(preds: Predecessors, a: seq<Digest>, b: seq<Digest>)
    requires IsWalk(preds, a) && IsWalk(preds, b) && b[0] in preds[a[|a| - 1]]
    ensures IsWalk(preds, a + b)
  {
  }

  lemma SubWalk(preds: Predecessors, w: seq<Digest>, i: nat, j: nat)
    requires IsWalk(preds, w) && i < j <= |w|
    ensures IsWalk(preds, w[i..j])
  {
  }

  // In an acyclic graph no walk is longer than the number of statements.
  lemma {:induction false} AcyclicWalksAreShort(preds: Predecessors, w: seq<Digest>)
    requires IsAcyclic(preds) && IsWalk(preds, w)
    ensures |w| <= |preds|
  {
    forall i, j | 0 <= i < j < |w|
      ensures w[i] != w[j]
    {
      if w[i] == w[j] {
        SubWalk(preds, w, i, j + 1);
        assert IsCycle(preds, w[i..j + 1]);
        assert OnCycle(preds, w[i]);
      }
    }
    DistinctCount(w);
    assert Elements(w) <= preds.Keys;
    SubsetCount(Elements(w), preds.Keys);
  }

  lemma {:induction false} DistinctCount(w: seq<Digest>)
    requires forall i, j | 0 <= i < j < |w| :: w[i] != w[j]
    ensures |Elements(w)| == |w|
  {
    if w != [] {
      var front, last := w[..|w| - 1], w[|w| - 1];
      DistinctCount(front);
      assert Elements(w) == Elements(front) + {last} && last !in Elements(front);
    }
  }

  lemma {:induction false} SubsetCount(a: set<Digest>, b: set<Digest>)
    requires a <= b
    ensures |a| <= |b|
  {
    if a != {} {
      var x :| x in a;
      SubsetCount(a - {x}, b - {x});
    }
  }

  // ---------------------------------------------------------------------
  // What the search marks, as a function
  // ---------------------------------------------------------------------

  // The colours, white (absent), grey (1) or black (2), and the marked nodes.
  datatype Marks = Marks(state: map<Digest, int>, cyclic: set<Digest>)

  // The stack from the first occurrence of x on.
  function From(stack: seq<Digest>, x: Digest): seq<Digest> {
    if stack == [] || stack[0] == x then stack else From(stack[1..], x)
  }

  function Visited(preds: Predecessors, node: Digest, stack: seq<Digest>, m: Marks): (r: Marks)
    requires node in preds && node !in m.state && m.state.Keys <= preds.Keys
    ensures m.state.Keys + {node} <= r.state.Keys <= preds.Keys
    decreases preds.Keys - m.state.Keys, 0, 0
  {
    var grey := m.state[node := 1];
    assert grey.Keys == m.state.Keys + {node} && preds.Keys - grey.Keys < preds.Keys - m.state.Keys by {
      assert node in preds.Keys - m.state.Keys;
    }
    var r := Followed(preds, preds[node], stack + [node], m.(state := grey));
    r.(state := r.state[node := 2])
  }

  function FollowedOne(preds: Predecessors, predecessor: Digest, stack: seq<Digest>, m: Marks): (r: Marks)
    requires m.state.Keys <= preds.Keys
    ensures m.state.Keys <= r.state.Keys <= preds.Keys
    decreases preds.Keys - m.state.Keys, 1, 0
  {
    if predecessor !in preds then m
    else if predecessor !in m.state then Visited(preds, predecessor, stack, m)
    else if m.state[predecessor] == 1 then m.(cyclic := m.cyclic + Elements(From(stack, predecessor)))
    else m
  }

  function Followed(preds: Predecessors, values: seq<Digest>, stack: seq<Digest>, m: Marks): (r: Marks)
    requires m.state.Keys <= preds.Keys
    ensures m.state.Keys <= r.state.Keys <= preds.Keys
    decreases preds.Keys - m.state.Keys, 2, |values|
  {
    if values == [] then m else Followed(preds, values[1..], stack, FollowedOne(preds, values[0], stack, m))
  }

  function Searched(preds: Predecessors, order: seq<Digest>, m: Marks): (r: Marks)
    requires m.state.Keys <= preds.Keys && Elements(order) <= preds.Keys
    ensures m.state.Keys <= r.state.Keys <= preds.Keys
    decreases |order|
  {
    if order == [] then m
    else
      assert order[0] in Elements(order) && Elements(order[1..]) <= Elements(order);
      Searched(preds, order[1..], if order[0] in m.state then m else Visited(preds, order[0], [], m))
  }

  const NO_MARKS: Marks := Marks(map[], {})

  // ---------------------------------------------------------------------
  // _cycle_members
  // ---------------------------------------------------------------------

  // The present predecessors of every node that is not marked come before it.
  predicate Topological(preds: Predecessors, order: seq<Digest>, marked: set<Digest>) {
    forall i | 0 <= i < |order| ::
      && order[i] in preds && order[i] !in order[..i]
      && (order[i] !in marked ==> forall p | p in preds[order[i]] && p in preds :: p in order[..i])
  }

  // A walk over unmarked nodes from order[i] stays in order[..i] after its first step.
  lemma {:induction false} WalkDescends(preds: Predecessors, order: seq<Digest>, marked: set<Digest>, w: seq<Digest>,
          i: nat)
    requires Topological(preds, order, marked) && IsWalk(preds, w) && |w| >= 2 && i < |order| && w[0] == order[i]
    requires forall x | x in w :: x !in marked
    ensures exists j: nat | j < i :: order[j] == w[|w| - 1]
    decreases |w|
  {
    assert w[0] in w && w[1] in preds && w[1] in preds[w[0]];
    assert w[1] in order[..i];
    var k :| 0 <= k < i && order[k] == w[1];
    if |w| > 2 {
      SubWalk(preds, w, 1, |w|);
      WalkDescends(preds, order, marked, w[1..], k);
      var j: nat :| j < k && order[j] == w[1..][|w[1..]| - 1];
      assert j < i && order[j] == w[|w| - 1];
    }
  }

  lemma FirstPlace(preds: Predecessors, order: seq<Digest>, marked: set<Digest>, j: nat, i: nat)
    requires Topological(preds, order, marked) && j < i < |order|
    ensures order[j] != order[i]
  {
    assert order[..i][j] == order[j];
  }

  lemma NeverReturns(preds: Predecessors, order: seq<Digest>, marked: set<Digest>, w: seq<Digest>, i: nat)
    requires Topological(preds, order, marked) && IsWalk(preds, w) && |w| >= 2 && i < |order| && w[0] == order[i]
    requires forall x | x in w :: x !in marked
    ensures w[|w| - 1] != w[0]
  {
    WalkDescends(preds, order, marked, w, i);
    var j: nat :| j < i && order[j] == w[|w| - 1];
    FirstPlace(preds, order, marked, j, i);
  }

  // Once every present node is finished, each cycle has a marked node.
  lemma {:induction false} CycleIsMarked(preds: Predecessors, order: seq<Digest>, marked: set<Digest>, w: seq<Digest>)
    requires Topological(preds, order, marked) && Elements(order) == preds.Keys && IsCycle(preds, w)
    ensures exists x | x in w :: x in marked
  {
    if forall x | x in w :: x !in marked {
      assert w[0] in Elements(order);
      var i :| 0 <= i < |order| && order[i] == w[0];
      NeverReturns(preds, order, marked, w, i);
    }
  }

  lemma TopologicalAppend(preds: Predecessors, order: seq<Digest>, marked: set<Digest>, node: Digest)
    requires Topological(preds, order, marked) && node in preds && node !in order
    requires node !in marked ==> forall p | p in preds[node] && p in preds :: p in order
    ensures Topological(preds, order + [node], marked)
  {
    var longer := order + [node];
    forall i | 0 <= i < |longer|
      ensures longer[i] in preds && longer[i] !in longer[..i]
      ensures longer[i] !in marked ==> forall p | p in preds[longer[i]] && p in preds :: p in longer[..i]
    {
      assert longer[..i] == order[..i];
      if i == |order| { assert order[..i] == order; }
    }
  }

  lemma TopologicalMore(preds: Predecessors, order: seq<Digest>, marked: set<Digest>, more: set<Digest>)
    requires Topological(preds, order, marked) && marked <= more
    ensures Topological(preds, order, more)
  {
  }

  class CycleFinder {
    const predecessors: Predecessors
    var state: map<Digest, int>
    var stack: seq<Digest>
    var cyclic: set<Digest>
    ghost var finished: seq<Digest>

    constructor (predecessors: Predecessors)
      ensures Valid() && this.predecessors == predecessors && Now() == NO_MARKS
      ensures stack == [] && finished == []
    {
      this.predecessors := predecessors;
      state, stack, cyclic, finished := map[], [], {}, [];
    }

    ghost predicate Valid()
      reads this
    {
      && state.Keys <= predecessors.Keys
      // the stack is the current walk and holds the grey nodes
      && (stack != [] ==> IsWalk(predecessors, stack))
      && (forall i, j | 0 <= i < j < |stack| :: stack[i] != stack[j])
      && (forall x :: x in stack <==> x in state && state[x] == 1)
      // the black nodes, in the order in which they were finished
      && (forall x :: x in finished <==> x in state && state[x] != 1)
      // soundness: whatever is marked lies on a wholly marked cycle
      && (forall x | x in cyclic :: OnMarkedCycle(predecessors, x, cyclic))
      // completeness: the unmarked black nodes are in topological order
      && Topological(predecessors, finished, cyclic)
    }

    lemma KeysPresent()
      requires Valid()
      ensures state.Keys <= predecessors.Keys
    {
    }

    // What the invariant says once every present node is finished.
    lemma Finished()
      requires Valid() && predecessors.Keys <= state.Keys && forall x | x in state :: state[x] == 2
      ensures MarksCycles(predecessors, cyclic)
    {
      hide IsWalk, OnMarkedCycle, Topological, IsCycle;
      assert Elements(finished) == predecessors.Keys;
      forall w | IsCycle(predecessors, w)
        ensures exists x | x in w :: x in cyclic
      {
        CycleIsMarked(predecessors, finished, cyclic, w);
      }
    }

    function Now(): Marks
      reads this
    {
      Marks(state, cyclic)
    }

    method Visit(node: Digest)
      requires Valid() && node in predecessors && node !in state
      requires stack != [] ==> node in predecessors[stack[|stack| - 1]]
      modifies this
      ensures Valid() && stack == old(stack) && Extends(old(Now()), Now()) && node in state && state[node] == 2
      ensures Now() == Visited(predecessors, node, old(stack), old(Now()))
      decreases predecessors.Keys - state.Keys, 0
    {
      hide Valid, IsWalk, OnMarkedCycle, Topological, Visited, Followed, FollowedOne, Extends;
      KeysPresent();
      ghost var before := Now();
      VisitedUnfold(predecessors, node, stack, before);
      Push(node);
      assert Now() == Marks(before.state[node := 1], before.cyclic);
      FollowAll();
      assert stack[..|stack| - 1] == old(stack);
      VisitExtends(before, node, Now());
      Pop();
    }

    // The loop over the predecessors of the node on top of the stack.
    method FollowAll()
      requires Valid() && stack != [] && stack[|stack| - 1] in predecessors
      modifies this
      ensures Valid() && stack == old(stack) && Extends(old(Now()), Now())
      ensures Now() == Followed(predecessors, predecessors[stack[|stack| - 1]], stack, old(Now()))
      ensures var top := stack[|stack| - 1];
        top in cyclic || forall p | p in predecessors[top] && p in predecessors :: IsBlack(Now(), p)
      decreases predecessors.Keys - state.Keys, 2
    {
      hide Valid, IsWalk, OnMarkedCycle, Topological, Followed, FollowedOne, Extends, Settled;
      KeysPresent();
      ghost var first := Now();
      var values := predecessors[stack[|stack| - 1]];
      assert values[0..] == values;
      ExtendsSelf(first);
      NoneSettled(predecessors, values, first);
      for k := 0 to |values|
        invariant Valid() && stack == old(stack) && Extends(first, Now())
        invariant first.state.Keys <= state.Keys <= predecessors.Keys
        invariant Followed(predecessors, values[k..], stack, Now()) == Followed(predecessors, values, stack, first)
        invariant stack[|stack| - 1] in cyclic || Settled(predecessors, values, k, Now())
      {
        KeysPresent();
        ghost var m := Now();
        FollowedUnfold(predecessors, values, k, stack, m);
        Follow(values[k]);
        KeysPresent();
        ExtendsThrough(first, m, Now());
        OneMoreSettled(predecessors, values, k, m, Now());
      }
      KeysPresent();
      FollowedEnd(predecessors, values, stack, Now());
      AllSettled(predecessors, values, Now());
    }

    // One turn of the loop over the predecessors of the node on top of the stack.
    method Follow(predecessor: Digest)
      requires Valid() && stack != [] && predecessor in predecessors[stack[|stack| - 1]]
      modifies this
      ensures Valid() && stack == old(stack) && Extends(old(Now()), Now())
      ensures Now() == FollowedOne(predecessors, predecessor, old(stack), old(Now()))
      ensures predecessor in predecessors ==> stack[|stack| - 1] in cyclic || IsBlack(Now(), predecessor)
      decreases predecessors.Keys - state.Keys, 1
    {
      hide IsWalk, OnMarkedCycle, Topological, Visited, Followed;
      if predecessor !in predecessors {
        return;
      }
      if predecessor !in state {
        Visit(predecessor);
      } else if state[predecessor] == 1 {
        MarkFrom(predecessor);
      }
    }

    method Push(node: Digest)
      requires Valid() && node in predecessors && node !in state
      requires stack != [] ==> node in predecessors[stack[|stack| - 1]]
      modifies this`state, this`stack
      ensures Valid() && stack == old(stack) + [node] && state == old(state)[node := 1]
    {
      hide OnMarkedCycle, Topological;
      if stack != [] { JoinWalks(predecessors, stack, [node]); }
      state := state[node := 1];
      stack := stack + [node];
    }

    // The node on top of the stack is finished.
    method Pop()
      requires Valid() && stack != []
      requires var top := stack[|stack| - 1];
        top in cyclic || forall p | p in predecessors[top] && p in predecessors :: IsBlack(Now(), p)
      modifies this`state, this`stack, this`finished
      ensures Valid() && stack == old(stack)[..|old(stack)| - 1]
      ensures state == old(state)[old(stack)[|old(stack)| - 1] := 2]
    {
      hide IsWalk, OnMarkedCycle, Topological;
      var node := stack[|stack| - 1];
      if |stack| > 1 { SubWalk(predecessors, stack, 0, |stack| - 1); }
      PopDistinct(stack);
      TopologicalAppend(predecessors, finished, cyclic, node);
      stack := stack[..|stack| - 1];
      state := state[node := 2];
      finished := finished + [node];
    }

    // The stack is marked from the first place of the predecessor on.
    method MarkFrom(predecessor: Digest)
      requires Valid() && predecessor in stack && predecessor in predecessors[stack[|stack| - 1]]
      modifies this`cyclic
      ensures Valid() && cyclic == old(cyclic) + Elements(From(stack, predecessor))
      ensures stack[|stack| - 1] in cyclic
    {
      hide IsWalk, OnMarkedCycle, Topological, From;
      var index := IndexOf(stack, predecessor);
      ClosesCycle(predecessors, stack, index);
      OnMarkedCycleMore(predecessors, Elements(stack[index..]), cyclic + Elements(stack[index..]));
      OnMarkedCycleMore(predecessors, cyclic, cyclic + Elements(stack[index..]));
      TopologicalMore(predecessors, finished, cyclic, cyclic + Elements(stack[index..]));
      cyclic := cyclic + Elements(stack[index..]);
      assert stack[index..][|stack| - 1 - index] == stack[|stack| - 1];
    }
  }

  // The first place of x on the stack.
  method IndexOf(stack: seq<Digest>, x: Digest) returns (index: nat)
    requires x in stack
    ensures index < |stack| && stack[index] == x && stack[index..] == From(stack, x)
  {
    index := 0;
    assert stack[0..] == stack;
    while stack[index] != x
      invariant index < |stack| && x in stack[index..] && From(stack[index..], x) == From(stack, x)
      decreases |stack| - index
    {
      assert stack[index..][1..] == stack[index + 1..];
      index := index + 1;
    }
  }

  predicate IsBlack(m: Marks, x: Digest) {
    x in m.state && m.state[x] != 1
  }

  // Old colours and marks are kept, and new nodes are black.
  predicate Extends(m: Marks, more: Marks) {
    && m.state.Keys <= more.state.Keys
    && (forall x | x in m.state :: more.state[x] == m.state[x])
    && (forall x | x in more.state && x !in m.state :: more.state[x] == 2)
    && m.cyclic <= more.cyclic
  }

  // The first k values are finished, as far as they are present.
  predicate Settled(preds: Predecessors, values: seq<Digest>, k: nat, m: Marks)
    requires k <= |values|
  {
    forall j | 0 <= j < k && values[j] in preds :: IsBlack(m, values[j])
  }

  lemma ExtendsSelf(m: Marks)
    ensures Extends(m, m)
  {
  }

  lemma ExtendsThrough(a: Marks, b: Marks, c: Marks)
    requires Extends(a, b) && Extends(b, c)
    ensures Extends(a, c) && a.state.Keys <= c.state.Keys && b.cyclic <= c.cyclic
  {
  }

  lemma VisitExtends(m: Marks, node: Digest, r: Marks)
    requires node !in m.state && Extends(Marks(m.state[node := 1], m.cyclic), r)
    ensures Extends(m, Marks(r.state[node := 2], r.cyclic))
  {
  }

  lemma NoneSettled(preds: Predecessors, values: seq<Digest>, m: Marks)
    ensures Settled(preds, values, 0, m)
  {
  }

  lemma OneMoreSettled(preds: Predecessors, values: seq<Digest>, k: nat, m: Marks, more: Marks)
    requires k < |values| && Extends(m, more)
    ensures Settled(preds, values, k, m) && (values[k] in preds ==> IsBlack(more, values[k]))
      ==> Settled(preds, values, k + 1, more)
  {
  }

  lemma AllSettled(preds: Predecessors, values: seq<Digest>, m: Marks)
    ensures Settled(preds, values, |values|, m) ==> forall p | p in values && p in preds :: IsBlack(m, p)
  {
  }

  lemma VisitedUnfold(preds: Predecessors, node: Digest, stack: seq<Digest>, m: Marks)
    requires node in preds && node !in m.state && m.state.Keys <= preds.Keys
    ensures var r := Followed(preds, preds[node], stack + [node], Marks(m.state[node := 1], m.cyclic));
      Visited(preds, node, stack, m) == Marks(r.state[node := 2], r.cyclic)
  {
    hide Followed;
  }

  lemma FollowedUnfold(preds: Predecessors, values: seq<Digest>, k: nat, stack: seq<Digest>, m: Marks)
    requires m.state.Keys <= preds.Keys && k < |values|
    ensures Followed(preds, values[k..], stack, m) ==
      Followed(preds, values[k + 1..], stack, FollowedOne(preds, values[k], stack, m))
  {
    hide FollowedOne;
    assert values[k..][0] == values[k] && values[k..][1..] == values[k + 1..];
  }

  lemma FollowedEnd(preds: Predecessors, values: seq<Digest>, stack: seq<Digest>, m: Marks)
    requires m.state.Keys <= preds.Keys
    ensures Followed(preds, values[|values|..], stack, m) == m
  {
  }

  lemma PopDistinct(s: seq<Digest>)
    requires s != [] && forall i, j | 0 <= i < j < |s| :: s[i] != s[j]
    ensures forall x :: x in s[..|s| - 1] <==> x in s && x != s[|s| - 1]
  {
    assert s == s[..|s| - 1] + [s[|s| - 1]];
  }

  lemma OnMarkedCycleMore(preds: Predecessors, marked: set<Digest>, more: set<Digest>)
    requires marked <= more
    ensures forall x | OnMarkedCycle(preds, x, marked) :: OnMarkedCycle(preds, x, more)
  {
    hide IsCycle;
  }

  // If the last node of a walk has an earlier node as predecessor, everything
  // from there on lies on a cycle inside that part.
  lemma ClosesCycle(preds: Predecessors, w: seq<Digest>, index: nat)
    requires IsWalk(preds, w) && index < |w| && w[index] in preds[w[|w| - 1]]
    ensures forall x | x in Elements(w[index..]) :: OnMarkedCycle(preds, x, Elements(w[index..]))
  {
    hide IsWalk, OnMarkedCycle;
    forall x | x in Elements(w[index..])
      ensures OnMarkedCycle(preds, x, Elements(w[index..]))
    {
      var k: nat :| k < |w[index..]| && w[index..][k] == x;
      ClosesAt(preds, w, index, index + k);
    }
  }

  lemma ClosesAt(preds: Predecessors, w: seq<Digest>, index: nat, m: nat)
    requires IsWalk(preds, w) && index <= m < |w| && w[index] in preds[w[|w| - 1]]
    ensures OnMarkedCycle(preds, w[m], Elements(w[index..]))
  {
    hide IsWalk;
    var tail, head := w[m..|w|], w[index..m + 1];
    SubWalk(preds, w, m, |w|);
    SubWalk(preds, w, index, m + 1);
    WalkNodes(preds, tail);
    WalkNodes(preds, w);
    assert tail[|tail| - 1] == w[|w| - 1] && head[0] == w[index];
    JoinWalks(preds, tail, head);
    var round := tail + head;
    assert round[0] == w[m] && round[|round| - 1] == w[m] && IsCycle(preds, round);
    SubElements(w, m, |w|, index);
    SubElements(w, index, m + 1, index);
  }

  lemma SubElements(w: seq<Digest>, i: nat, j: nat, from: nat)
    requires from <= i <= j <= |w|
    ensures forall x | x in w[i..j] :: x in Elements(w[from..])
  {
    forall x | x in w[i..j]
      ensures x in w[from..]
    {
      var k: nat :| k < j - i && w[i..j][k] == x;
      assert w[from..][i + k - from] == x;
    }
  }

  lemma WalkNodes(preds: Predecessors, w: seq<Digest>)
    requires IsWalk(preds, w)
    ensures forall x | x in w :: x in preds
  {
  }

  // ---------------------------------------------------------------------
  // What the marks say
  // ---------------------------------------------------------------------

  lemma MarkedIsOnCycle(preds: Predecessors, marked: set<Digest>)
    requires MarksCycles(preds, marked)
    ensures forall x | x in marked :: OnCycle(preds, x)
  {
    hide IsCycle;
    forall x | x in marked
      ensures OnCycle(preds, x)
    {
      var w: seq<Digest> :| IsCycle(preds, w) && w[0] == x && forall y | y in w :: y in marked;
    }
  }

  lemma MarksDecide(preds: Predecessors, marked: set<Digest>)
    requires MarksCycles(preds, marked)
    ensures marked == {} <==> IsAcyclic(preds)
  {
    MarkedIsOnCycle(preds, marked);
    if marked != {} {
      var x :| x in marked;
      assert OnCycle(preds, x);
    }
  }

  predicate Meet(v: seq<Digest>, w: seq<Digest>) {
    exists x | x in v :: x in w
  }

  // A cycle that every cycle meeting it covers is marked altogether.
  lemma {:induction false} CoveredCycleIsMarked(preds: Predecessors, marked: set<Digest>, w: seq<Digest>)
    requires MarksCycles(preds, marked) && IsCycle(preds, w)
    requires forall v | IsCycle(preds, v) && Meet(v, w) :: Elements(w) <= Elements(v)
    ensures Elements(w) <= marked
  {
    hide IsCycle;
    var x :| x in w && x in marked;
    assert OnMarkedCycle(preds, x, marked);
    var v: seq<Digest> :| IsCycle(preds, v) && v[0] == x && forall y | y in v :: y in marked;
    assert |v| > 0 by { CycleNotEmpty(preds, v); }
    assert x in v && Meet(v, w);
    assert Elements(v) <= marked;
  }

  lemma CycleNotEmpty(preds: Predecessors, v: seq<Digest>)
    requires IsCycle(preds, v)
    ensures v != []
  {
  }

  // Cycles that share a node have the same nodes.
  ghost predicate CyclesAreApart(preds: Predecessors) {
    forall v, w | IsCycle(preds, v) && IsCycle(preds, w) && Meet(v, w) :: Elements(v) == Elements(w)
  }

  // Then the marked nodes are exactly those on cycles.
  lemma {:induction false} ApartCyclesAreMarked(preds: Predecessors, marked: set<Digest>)
    requires MarksCycles(preds, marked) && CyclesAreApart(preds)
    ensures forall x :: x in marked <==> OnCycle(preds, x)
  {
    hide IsCycle;
    MarkedIsOnCycle(preds, marked);
    forall x | OnCycle(preds, x)
      ensures x in marked
    {
      var w: seq<Digest> :| IsCycle(preds, w) && w[0] == x;
      CycleNotEmpty(preds, w);
      CoveredCycleIsMarked(preds, marked, w);
      assert x in Elements(w);
    }
  }

  method CycleMembers(predecessors: Predecessors) returns (cyclic: seq<Digest>)
    ensures Ascending(cyclic)
    ensures MarksCycles(predecessors, Elements(cyclic))
    ensures forall x | x in cyclic :: OnCycle(predecessors, x)
    ensures CyclesAreApart(predecessors) ==> forall x | OnCycle(predecessors, x) :: x in cyclic
    ensures cyclic == [] <==> IsAcyclic(predecessors)
    ensures forall order | Ascending(order) && Elements(order) == predecessors.Keys ::
      Elements(cyclic) == Searched(predecessors, order, NO_MARKS).cyclic
  {
    hide CycleFinder.Valid, IsWalk, MarksCycles, OnCycle, IsAcyclic, CyclesAreApart, Topological, Visited, Searched,
      IsCycle, Ascending;
    var finder := new CycleFinder(predecessors);
    var order := Sorted(predecessors.Keys);
    assert order[0..] == order;
    for k := 0 to |order|
      invariant finder.Valid() && finder.predecessors == predecessors && finder.stack == []
      invariant fresh(finder)
      invariant forall x | x in finder.state :: finder.state[x] == 2
      invariant forall j | 0 <= j < k :: order[j] in finder.state
      invariant Elements(order[k..]) <= predecessors.Keys && finder.state.Keys <= predecessors.Keys
      invariant Searched(predecessors, order[k..], finder.Now()) == Searched(predecessors, order, NO_MARKS)
    {
      assert order[k] in Elements(order);
      finder.KeysPresent();
      SearchedUnfold(predecessors, order, k, finder.Now());
      if order[k] !in finder.state {
        finder.Visit(order[k]);
        finder.KeysPresent();
        assert forall x | x in finder.state :: finder.state[x] == 2;
      }
    }
    finder.KeysPresent();
    SearchedEnd(predecessors, order, finder.Now());
    forall x | x in predecessors.Keys
      ensures x in finder.state
    {
      assert x in Elements(order);
    }
    finder.Finished();
    cyclic := Sorted(finder.cyclic);
    MarkedIsOnCycle(predecessors, finder.cyclic);
    MarksDecide(predecessors, finder.cyclic);
    if CyclesAreApart(predecessors) {
      ApartCyclesAreMarked(predecessors, finder.cyclic);
    }
    EmptyElements(cyclic);
    assert forall x :: x in cyclic <==> x in Elements(cyclic);
    forall other | Ascending(other) && Elements(other) == predecessors.Keys
      ensures other == order
    {
      AscendingUnique(other, order);
    }
  }

  lemma SearchedUnfold(preds: Predecessors, order: seq<Digest>, k: nat, m: Marks)
    requires m.state.Keys <= preds.Keys && k < |order| && Elements(order[k..]) <= preds.Keys
    ensures order[k] in preds && Elements(order[k + 1..]) <= preds.Keys
    ensures Searched(preds, order[k..], m) ==
      Searched(preds, order[k + 1..], if order[k] in m.state then m else Visited(preds, order[k], [], m))
  {
    hide Visited;
    assert order[k..][0] == order[k] && order[k..][1..] == order[k + 1..];
    assert order[k] in Elements(order[k..]);
    assert forall x | x in order[k + 1..] :: x in order[k..];
  }

  lemma SearchedEnd(preds: Predecessors, order: seq<Digest>, m: Marks)
    requires m.state.Keys <= preds.Keys
    ensures Elements(order[|order|..]) == {} && Searched(preds, order[|order|..], m) == m
  {
  }

  // ---------------------------------------------------------------------
  // Overlapping cycles: a member that is not marked, and the same shape marked
  // ---------------------------------------------------------------------

  // The cycle 0, 1, 0 and one through 2.
  function Overlapping(last: Digest): Predecessors {
    map[0 := [1, 2], 1 := [0], 2 := [last]]
  }

  // Statement 2 lies on the cycle 2, 1, 0, 2.  It is visited when 1 is already
  // black, so its only predecessor leads nowhere and it is never marked.
  lemma UnmarkedMember()
    ensures Ascending([0, 1, 2]) && Elements([0, 1, 2]) == Overlapping(1).Keys && OnCycle(Overlapping(1), 2)
    ensures 2 !in Searched(Overlapping(1), [0, 1, 2], NO_MARKS).cyclic
  {
    hide Searched, Visited;
    assert IsCycle(Overlapping(1), [2, 1, 0, 2]);
    SearchOverlapping(1);
  }

  // The cycles 0, 1, 0 and 0, 2, 0 share a node only, and all nodes are marked:
  // that cycles are apart is not necessary.
  lemma OverlappingMarked()
    ensures Ascending([0, 1, 2]) && Elements([0, 1, 2]) == Overlapping(0).Keys && !CyclesAreApart(Overlapping(0))
    ensures Searched(Overlapping(0), [0, 1, 2], NO_MARKS).cyclic == Overlapping(0).Keys
  {
    hide Searched, Visited;
    var v, w := [0, 1, 0], [0, 2, 0];
    assert IsCycle(Overlapping(0), v) && IsCycle(Overlapping(0), w);
    assert v[0] in v && v[0] in w && v[1] in Elements(v) && 1 !in Elements(w);
    SearchOverlapping(0);
  }

  lemma SearchOverlapping(last: Digest)
    requires last == 0 || last == 1
    ensures Elements([0, 1, 2]) == Overlapping(last).Keys
    ensures Searched(Overlapping(last), [0, 1, 2], NO_MARKS).cyclic == if last == 1 then {0, 1} else {0, 1, 2}
  {
    hide Searched, Visited;
    VisitZero(last);
    SearchOne(Overlapping(last), 0, [1, 2], NO_MARKS);
    assert [0] + [1, 2] == [0, 1, 2];
    NothingLeft(Overlapping(last), [1, 2], Marks(map[0 := 2, 1 := 2, 2 := 2], MarksOf(last)));
  }

  function MarksOf(last: Digest): set<Digest> {
    if last == 1 then {0, 1} else {0, 1, 2}
  }

  lemma SearchOne(preds: Predecessors, node: Digest, rest: seq<Digest>, m: Marks)
    requires m.state.Keys <= preds.Keys && Elements([node] + rest) <= preds.Keys && node in preds && node !in m.state
    ensures Elements(rest) <= preds.Keys
    ensures Searched(preds, [node] + rest, m) == Searched(preds, rest, Visited(preds, node, [], m))
  {
    hide Visited;
    assert ([node] + rest)[1..] == rest && ([node] + rest)[0] == node;
    assert forall x | x in rest :: x in [node] + rest;
  }

  lemma {:induction false} NothingLeft(preds: Predecessors, order: seq<Digest>, m: Marks)
    requires m.state.Keys <= preds.Keys && forall x | x in order :: x in m.state
    ensures Elements(order) <= preds.Keys && Searched(preds, order, m) == m
    decreases |order|
  {
    if order != [] {
      NothingLeft(preds, order[1..], m);
    }
  }

  lemma VisitZero(last: Digest)
    requires last == 0 || last == 1
    ensures Visited(Overlapping(last), 0, [], NO_MARKS) == Marks(map[0 := 2, 1 := 2, 2 := 2], MarksOf(last))
  {
    hide Visited, Followed, FollowedOne;
    var grey := Marks(NO_MARKS.state[0 := 1], {});
    var one, two := Marks(map[0 := 1, 1 := 2], {0, 1}), Marks(map[0 := 1, 1 := 2, 2 := 2], MarksOf(last));
    assert grey.state == map[0 := 1] && [] + [0] == [0];
    VisitOne(last, grey);
    VisitTwo(last, one);
    FollowTwo(Overlapping(last), 1, 2, [0], grey, one, two);
    VisitedUnfold(Overlapping(last), 0, [], NO_MARKS);
    assert two.state[0 := 2] == map[0 := 2, 1 := 2, 2 := 2];
  }

  lemma FollowTwo(preds: Predecessors, p: Digest, q: Digest, stack: seq<Digest>, a: Marks, b: Marks, c: Marks)
    requires a.state.Keys <= preds.Keys && FollowedOne(preds, p, stack, a) == b
    requires b.state.Keys <= preds.Keys && FollowedOne(preds, q, stack, b) == c
    ensures Followed(preds, [p, q], stack, a) == c
  {
    hide FollowedOne;
    assert [p, q][1..] == [q] && [q][1..] == [];
    assert Followed(preds, [q], stack, b) == Followed(preds, [], stack, c);
  }

  lemma FollowSingle(preds: Predecessors, p: Digest, stack: seq<Digest>, a: Marks)
    requires a.state.Keys <= preds.Keys
    ensures Followed(preds, [p], stack, a) == FollowedOne(preds, p, stack, a)
  {
    hide FollowedOne;
    assert [p][1..] == [];
  }

  // From the stack [0], visiting 1 meets the grey 0 and marks both.
  lemma VisitOne(last: Digest, m: Marks)
    requires m == Marks(map[0 := 1], {})
    ensures FollowedOne(Overlapping(last), 1, [0], m) == Marks(map[0 := 1, 1 := 2], {0, 1})
  {
    hide Followed;
    var grey := Marks(m.state[1 := 1], m.cyclic);
    VisitedUnfold(Overlapping(last), 1, [0], m);
    assert [0] + [1] == [0, 1] && From([0, 1], 0) == [0, 1];
    FollowSingle(Overlapping(last), 0, [0, 1], grey);
    assert Elements([0, 1]) == {0, 1};
    assert grey.state[1 := 2] == map[0 := 1, 1 := 2];
  }

  // From the stack [0], visiting 2 meets the black 1, or the grey 0 and marks both.
  lemma VisitTwo(last: Digest, m: Marks)
    requires (last == 0 || last == 1) && m == Marks(map[0 := 1, 1 := 2], {0, 1})
    ensures FollowedOne(Overlapping(last), 2, [0], m) == Marks(map[0 := 1, 1 := 2, 2 := 2], MarksOf(last))
  {
    hide Followed;
    var grey := Marks(m.state[2 := 1], m.cyclic);
    VisitedUnfold(Overlapping(last), 2, [0], m);
    assert [0] + [2] == [0, 2] && From([0, 2], 0) == [0, 2];
    FollowSingle(Overlapping(last), last, [0, 2], grey);
    assert Elements([0, 2]) == {0, 2};
    assert grey.state[2 := 2] == map[0 := 1, 1 := 2, 2 := 2];
  }
}
