/** What the compiled machine accepts, and why it is the pattern's language. */
module PatternMachine {
  import opened Wrappers
  import opened PatternSyntax
  import opened PatternLayout

  // ---------------------------------------------------------------------
  // Runs of the machine
  // ---------------------------------------------------------------------

  // From state q at position i the machine reaches a match state in at most n moves.
  ghost predicate AcceptsIn(machine: seq<State>, value: string, q: Option<nat>, i: nat, n: nat)
    decreases n
  {
    && q.Some? && q.value < |machine| && i <= |value|
    && var state := machine[q.value];
       match state.kind
       case Match => true
       case Split =>
         n > 0 && (AcceptsIn(machine, value, state.out, i, n - 1) || AcceptsIn(machine, value, state.out1, i, n - 1))
       case Atom(node) =>
         n > 0 && IsAtom(node) && exists k: nat ::
           AtomSpans(node, value, i, k) && AcceptsIn(machine, value, state.out, k, n - 1)
  }

  ghost predicate Accepts(machine: seq<State>, value: string, q: Option<nat>, i: nat) {
    exists n: nat :: AcceptsIn(machine, value, q, i, n)
  }

  // One move of a split state.
  lemma {:induction false} AcceptsSplit(machine: seq<State>, value: string, q: nat, i: nat)
    requires q < |machine| && machine[q].kind == Split && i <= |value|
    ensures Accepts(machine, value, Some(q), i) <==>
      Accepts(machine, value, machine[q].out, i) || Accepts(machine, value, machine[q].out1, i)
  {
    if Accepts(machine, value, Some(q), i) {
      var n: nat :| AcceptsIn(machine, value, Some(q), i, n);
      assert AcceptsIn(machine, value, machine[q].out, i, n - 1)
        || AcceptsIn(machine, value, machine[q].out1, i, n - 1);
    }
    if Accepts(machine, value, machine[q].out, i) {
      var n: nat :| AcceptsIn(machine, value, machine[q].out, i, n);
      assert AcceptsIn(machine, value, Some(q), i, n + 1);
    }
    if Accepts(machine, value, machine[q].out1, i) {
      var n: nat :| AcceptsIn(machine, value, machine[q].out1, i, n);
      assert AcceptsIn(machine, value, Some(q), i, n + 1);
    }
  }

  // One move of a literal, dot, class or anchor state.
  lemma {:induction false} AcceptsAtom(machine: seq<State>, value: string, q: nat, i: nat)
    requires q < |machine| && machine[q].kind.Atom? && IsAtom(machine[q].kind.node) && i <= |value|
    ensures Accepts(machine, value, Some(q), i) <==>
      exists k: nat :: AtomSpans(machine[q].kind.node, value, i, k) && Accepts(machine, value, machine[q].out, k)
  {
    var node := machine[q].kind.node;
    if Accepts(machine, value, Some(q), i) {
      var n: nat :| AcceptsIn(machine, value, Some(q), i, n);
      var k: nat :| AtomSpans(node, value, i, k) && AcceptsIn(machine, value, machine[q].out, k, n - 1);
    }
    if k: nat :| AtomSpans(node, value, i, k) && Accepts(machine, value, machine[q].out, k) {
      var n: nat :| AcceptsIn(machine, value, machine[q].out, k, n);
      assert AcceptsIn(machine, value, Some(q), i, n + 1);
    }
  }

  // ---------------------------------------------------------------------
  // The language of a lowered form
  // ---------------------------------------------------------------------

  predicate AtomsOnly(p: Prog) {
    match p
    case Empty => true
    case Test(atom) => IsAtom(atom)
    case Cat(a, b) => AtomsOnly(a) && AtomsOnly(b)
    case Alt(a, b) => AtomsOnly(a) && AtomsOnly(b)
    case Star(a) => AtomsOnly(a)
    case Plus(a) => AtomsOnly(a)
    case Opt(a) => AtomsOnly(a)
  }

  // p takes the machine from position i to position j; an alternative
  // without a start state is never taken.
  ghost predicate Moves(p: Prog, value: string, i: nat, j: nat)
    requires AtomsOnly(p)
    decreases p, 0
  {
    match p
    case Empty => i == j
    case Test(atom) => AtomSpans(atom, value, i, j)
    case Cat(a, b) => exists k: nat :: Moves(a, value, i, k) && Moves(b, value, k, j)
    case Alt(a, b) => (Starts(a) && Moves(a, value, i, j)) || (Starts(b) && Moves(b, value, i, j))
    case Star(a) => exists n: nat :: MovesTimes(a, n, value, i, j)
    case Plus(a) => exists n: nat :: n > 0 && MovesTimes(a, n, value, i, j)
    case Opt(a) => i == j || Moves(a, value, i, j)
  }

  ghost predicate MovesTimes(p: Prog, n: nat, value: string, i: nat, j: nat)
    requires AtomsOnly(p)
    decreases p, 1, n
  {
    if n == 0 then i == j else exists k: nat :: Moves(p, value, i, k) && MovesTimes(p, n - 1, value, k, j)
  }

  lemma {:induction false} MovesStayInside(p: Prog, value: string, i: nat, j: nat)
    requires AtomsOnly(p) && Moves(p, value, i, j) && i <= |value|
    ensures i <= j <= |value|
    decreases p, 0
  {
    match p
    case Empty =>
    case Test(atom) =>
    case Cat(a, b) =>
      var k: nat :| Moves(a, value, i, k) && Moves(b, value, k, j);
      MovesStayInside(a, value, i, k);
      MovesStayInside(b, value, k, j);
    case Alt(a, b) =>
      if Starts(a) && Moves(a, value, i, j) {
        MovesStayInside(a, value, i, j);
      } else {
        MovesStayInside(b, value, i, j);
      }
    case Star(a) =>
      var n: nat :| MovesTimes(a, n, value, i, j);
      TimesStayInside(a, n, value, i, j);
    case Plus(a) =>
      var n: nat :| n > 0 && MovesTimes(a, n, value, i, j);
      TimesStayInside(a, n, value, i, j);
    case Opt(a) =>
      if i != j { MovesStayInside(a, value, i, j); }
  }

  // Elimination rules for the existentials in Moves.
  lemma CatMiddle(a: Prog, b: Prog, value: string, i: nat, j: nat) returns (k: nat)
    requires AtomsOnly(Cat(a, b)) && Moves(Cat(a, b), value, i, j)
    ensures Moves(a, value, i, k) && Moves(b, value, k, j)
  {
    k :| Moves(a, value, i, k) && Moves(b, value, k, j);
  }

  lemma CatThrough(a: Prog, b: Prog, value: string, i: nat, k: nat, j: nat)
    requires AtomsOnly(Cat(a, b)) && Moves(a, value, i, k) && Moves(b, value, k, j)
    ensures Moves(Cat(a, b), value, i, j)
  {
  }

  lemma StarOf(a: Prog, n: nat, value: string, i: nat, j: nat)
    requires AtomsOnly(a) && MovesTimes(a, n, value, i, j)
    ensures Moves(Star(a), value, i, j)
  {
  }

  lemma StarCount(a: Prog, value: string, i: nat, j: nat) returns (n: nat)
    requires AtomsOnly(a) && Moves(Star(a), value, i, j)
    ensures MovesTimes(a, n, value, i, j)
  {
    n :| MovesTimes(a, n, value, i, j);
  }

  lemma FirstTime(p: Prog, n: nat, value: string, i: nat, j: nat) returns (k: nat)
    requires AtomsOnly(p) && n > 0 && MovesTimes(p, n, value, i, j)
    ensures Moves(p, value, i, k) && MovesTimes(p, n - 1, value, k, j)
  {
    k :| Moves(p, value, i, k) && MovesTimes(p, n - 1, value, k, j);
  }

  lemma {:induction false} TimesStayInside(p: Prog, n: nat, value: string, i: nat, j: nat)
    requires AtomsOnly(p) && MovesTimes(p, n, value, i, j) && i <= |value|
    ensures i <= j <= |value|
    decreases p, 1, n
  {
    if n > 0 {
      var k: nat :| Moves(p, value, i, k) && MovesTimes(p, n - 1, value, k, j);
      MovesStayInside(p, value, i, k);
      TimesStayInside(p, n - 1, value, k, j);
    }
  }

  // ---------------------------------------------------------------------
  // The laid-out code runs exactly its language
  // ---------------------------------------------------------------------

  predicate Placed(machine: seq<State>, p: Prog, lo: nat, t: Option<nat>) {
    lo + Size(p) <= |machine| && machine[lo..lo + Size(p)] == Code(p, lo, t)
  }

  lemma SplitSlice(m: seq<State>, lo: nat, x: seq<State>, y: seq<State>)
    requires lo + |x| + |y| <= |m| && m[lo..lo + |x| + |y|] == x + y
    ensures m[lo..lo + |x|] == x && m[lo + |x|..lo + |x| + |y|] == y
  {
    var both := m[lo..lo + |x| + |y|];
    assert both[..|x|] == m[lo..lo + |x|] && both[|x|..] == m[lo + |x|..lo + |x| + |y|];
  }

  lemma SliceEnd(m: seq<State>, lo: nat, x: seq<State>, last: State)
    requires lo + |x| < |m| && m[lo..lo + |x| + 1] == x + [last]
    ensures m[lo..lo + |x|] == x && m[lo + |x|] == last
  {
    SplitSlice(m, lo, x, [last]);
    assert m[lo..lo + |x| + 1][|x|] == last;
  }

  lemma PlacedTest(machine: seq<State>, atom: Node, lo: nat, t: Option<nat>)
    requires Placed(machine, Test(atom), lo, t)
    ensures Entry(Test(atom), lo, t) == Some(lo) && lo < |machine| && machine[lo] == State(Atom(atom), t, None)
  {
    assert machine[lo..lo + 1][0] == machine[lo];
  }

  lemma PlacedCat(machine: seq<State>, a: Prog, b: Prog, lo: nat, t: Option<nat>)
    requires Placed(machine, Cat(a, b), lo, t)
    ensures Placed(machine, a, lo, Entry(b, lo + Size(a), t)) && Placed(machine, b, lo + Size(a), t)
    ensures Entry(Cat(a, b), lo, t) == Entry(a, lo, Entry(b, lo + Size(a), t))
  {
    hide Code, Size, Start, Starts, StartOf, Outs, Entry;
    CodeOfCat(a, b, lo, t);
    SplitSlice(machine, lo, Code(a, lo, Entry(b, lo + Size(a), t)), Code(b, lo + Size(a), t));
  }

  lemma PlacedAlt(machine: seq<State>, a: Prog, b: Prog, lo: nat, t: Option<nat>)
    requires Placed(machine, Alt(a, b), lo, t)
    ensures Placed(machine, a, lo, t) && Placed(machine, b, lo + Size(a), t)
    ensures Entry(Alt(a, b), lo, t) == Some(lo + Size(a) + Size(b)) && lo + Size(a) + Size(b) < |machine|
    ensures machine[lo + Size(a) + Size(b)] == State(Split, StartOf(a, lo), StartOf(b, lo + Size(a)))
  {
    hide Code, Size, Start, Starts, StartOf, Outs, Entry;
    CodeOfAlt(a, b, lo, t);
    SplitEnd(machine, lo, Size(a), Size(b), Code(a, lo, t), Code(b, lo + Size(a), t),
      State(Split, StartOf(a, lo), StartOf(b, lo + Size(a))));
  }

  lemma SplitEnd(m: seq<State>, lo: nat, i: nat, j: nat, x: seq<State>, y: seq<State>, last: State)
    requires i == |x| && j == |y|
    requires lo + i + j < |m| && m[lo..lo + (i + j + 1)] == x + y + [last]
    ensures m[lo..lo + i] == x && m[lo + i..lo + i + j] == y && m[lo + i + j] == last
  {
    var both := x + y;
    SliceEnd(m, lo, both, last);
    SplitSlice(m, lo, x, y);
  }

  predicate IsLoop(p: Prog, body: Prog) {
    p == Star(body) || p == Plus(body)
  }

  lemma PlacedLoop(machine: seq<State>, p: Prog, body: Prog, lo: nat, t: Option<nat>)
    requires IsLoop(p, body) && Placed(machine, p, lo, t)
    ensures Placed(machine, body, lo, Some(lo + Size(body)))
    ensures Entry(p, lo, t) == if p.Star? then Some(lo + Size(body)) else Entry(body, lo, t)
    ensures lo + Size(body) < |machine| && machine[lo + Size(body)] == State(Split, StartOf(body, lo), t)
  {
    hide Code, Size, Start, Starts, StartOf, Outs, Entry;
    CodeOfLoop(p, body, lo, t);
    SliceEnd(machine, lo, Code(body, lo, Some(lo + Size(body))), State(Split, StartOf(body, lo), t));
  }

  lemma PlacedOpt(machine: seq<State>, body: Prog, lo: nat, t: Option<nat>)
    requires Placed(machine, Opt(body), lo, t)
    ensures Placed(machine, body, lo, t)
    ensures Entry(Opt(body), lo, t) == Some(lo + Size(body))
    ensures lo + Size(body) < |machine| && machine[lo + Size(body)] == State(Split, StartOf(body, lo), t)
  {
    hide Code, Size, Start, Starts, StartOf, Outs, Entry;
    CodeOfOpt(body, lo, t);
    SliceEnd(machine, lo, Code(body, lo, t), State(Split, StartOf(body, lo), t));
  }

  // Every span of p is a run of its code.
  lemma {:induction false} SpanRuns(machine: seq<State>, value: string, p: Prog, lo: nat, t: Option<nat>, i: nat,
          j: nat)
    requires Solid(p) && AtomsOnly(p) && Placed(machine, p, lo, t) && i <= |value|
    requires Moves(p, value, i, j) && Accepts(machine, value, t, j)
    ensures Accepts(machine, value, Entry(p, lo, t), i)
    decreases p, 0
  {
    hide Placed, Start, Size, AcceptsIn, Accepts, AtomSpans;
    match p
    case Empty =>
    case Test(atom) =>
      PlacedTest(machine, atom, lo, t);
      AcceptsAtom(machine, value, lo, i);
    case Cat(a, b) =>
      PlacedCat(machine, a, b, lo, t);
      var k: nat :| Moves(a, value, i, k) && Moves(b, value, k, j);
      MovesStayInside(a, value, i, k);
      SpanRuns(machine, value, b, lo + Size(a), t, k, j);
      SpanRuns(machine, value, a, lo, Entry(b, lo + Size(a), t), i, k);
    case Alt(a, b) =>
      PlacedAlt(machine, a, b, lo, t);
      AcceptsSplit(machine, value, lo + Size(a) + Size(b), i);
      if Starts(a) && Moves(a, value, i, j) {
        SpanRuns(machine, value, a, lo, t, i, j);
      } else {
        SpanRuns(machine, value, b, lo + Size(a), t, i, j);
      }
    case Star(a) =>
      PlacedLoop(machine, p, a, lo, t);
      var n: nat :| MovesTimes(a, n, value, i, j);
      LoopRuns(machine, value, a, lo, t, n, i, j);
    case Plus(a) =>
      PlacedLoop(machine, p, a, lo, t);
      var n: nat :| n > 0 && MovesTimes(a, n, value, i, j);
      var k := FirstTime(a, n, value, i, j);
      MovesStayInside(a, value, i, k);
      LoopRuns(machine, value, a, lo, t, n - 1, k, j);
      SpanRuns(machine, value, a, lo, Some(lo + Size(a)), i, k);
    case Opt(a) =>
      PlacedOpt(machine, a, lo, t);
      AcceptsSplit(machine, value, lo + Size(a), i);
      if i != j {
        SpanRuns(machine, value, a, lo, t, i, j);
      }
  }

  lemma {:induction false} LoopRuns(machine: seq<State>, value: string, a: Prog, lo: nat, t: Option<nat>, n: nat,
          i: nat, j: nat)
    requires Solid(a) && AtomsOnly(a) && Placed(machine, a, lo, Some(lo + Size(a))) && i <= |value|
    requires lo + Size(a) < |machine| && machine[lo + Size(a)] == State(Split, StartOf(a, lo), t)
    requires MovesTimes(a, n, value, i, j) && Accepts(machine, value, t, j)
    ensures Accepts(machine, value, Some(lo + Size(a)), i)
    decreases a, 1, n
  {
    AcceptsSplit(machine, value, lo + Size(a), i);
    if n > 0 {
      var k: nat :| Moves(a, value, i, k) && MovesTimes(a, n - 1, value, k, j);
      MovesStayInside(a, value, i, k);
      LoopRuns(machine, value, a, lo, t, n - 1, k, j);
      SpanRuns(machine, value, a, lo, Some(lo + Size(a)), i, k);
    }
  }

  // Every run that enters p leaves it along a span of p.
  lemma {:induction false} RunSpans(machine: seq<State>, value: string, p: Prog, lo: nat, t: Option<nat>, i: nat,
          n: nat)
    returns (j: nat, m: nat)
    requires Solid(p) && AtomsOnly(p) && Placed(machine, p, lo, t)
    requires AcceptsIn(machine, value, Entry(p, lo, t), i, n)
    ensures m <= n && Moves(p, value, i, j) && AcceptsIn(machine, value, t, j, m)
    decreases p, 0, 0
  {
    hide Placed, Start, Size, AtomSpans;
    match p
    case Empty =>
      j, m := i, n;
    case Test(atom) =>
      PlacedTest(machine, atom, lo, t);
      j :| AtomSpans(atom, value, i, j) && AcceptsIn(machine, value, t, j, n - 1);
      m := n - 1;
    case Cat(a, b) =>
      PlacedCat(machine, a, b, lo, t);
      var k, mk := RunSpans(machine, value, a, lo, Entry(b, lo + Size(a), t), i, n);
      j, m := RunSpans(machine, value, b, lo + Size(a), t, k, mk);
    case Alt(a, b) =>
      PlacedAlt(machine, a, b, lo, t);
      if Starts(a) && AcceptsIn(machine, value, Some(Start(a, lo)), i, n - 1) {
        j, m := RunSpans(machine, value, a, lo, t, i, n - 1);
      } else {
        j, m := RunSpans(machine, value, b, lo + Size(a), t, i, n - 1);
      }
    case Star(a) =>
      PlacedLoop(machine, p, a, lo, t);
      var c;
      j, m, c := LoopSpans(machine, value, a, lo, t, i, n);
    case Plus(a) =>
      PlacedLoop(machine, p, a, lo, t);
      var k, mk := RunSpans(machine, value, a, lo, Some(lo + Size(a)), i, n);
      var c;
      j, m, c := LoopSpans(machine, value, a, lo, t, k, mk);
      assert MovesTimes(a, c + 1, value, i, j);
    case Opt(a) =>
      PlacedOpt(machine, a, lo, t);
      if Starts(a) && AcceptsIn(machine, value, Some(Start(a, lo)), i, n - 1) {
        j, m := RunSpans(machine, value, a, lo, t, i, n - 1);
      } else {
        j, m := i, n - 1;
      }
  }

  lemma {:induction false} LoopSpans(machine: seq<State>, value: string, a: Prog, lo: nat, t: Option<nat>, i: nat,
          n: nat)
    returns (j: nat, m: nat, count: nat)
    requires Solid(a) && AtomsOnly(a) && Placed(machine, a, lo, Some(lo + Size(a)))
    requires lo + Size(a) < |machine| && machine[lo + Size(a)] == State(Split, StartOf(a, lo), t)
    requires AcceptsIn(machine, value, Some(lo + Size(a)), i, n)
    ensures m <= n && MovesTimes(a, count, value, i, j) && AcceptsIn(machine, value, t, j, m)
    decreases a, 1, n
  {
    if Starts(a) && AcceptsIn(machine, value, Some(Start(a, lo)), i, n - 1) {
      var k, mk := RunSpans(machine, value, a, lo, Some(lo + Size(a)), i, n - 1);
      var rest;
      j, m, rest := LoopSpans(machine, value, a, lo, t, k, mk);
      count := rest + 1;
    } else {
      j, m, count := i, n - 1, 0;
    }
  }
}
