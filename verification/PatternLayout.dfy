/** The code that `_Compiler` lays out, as a function of the tree.

    A tree is first lowered to six binary forms; `Code` then gives the exact
    state table of a form placed at index `lo` whose exits go to `t`
    (`None` while they still dangle). */
module PatternLayout {
  import opened Wrappers
  import opened PatternSyntax

  datatype Prog =
    | Empty
    | Test(atom: Node)
    | Cat(left: Prog, right: Prog)
    | Alt(left: Prog, right: Prog)
    | Star(body: Prog)
    | Plus(body: Prog)
    | Opt(body: Prog)

  datatype Kind = Atom(node: Node) | Split | Match

  datatype State = State(kind: Kind, out: Option<nat>, out1: Option<nat>)

  datatype Field = Out | Out1

  type Exits = seq<(nat, Field)>

  datatype Fragment = Fragment(start: Option<nat>, outs: Exits)

  // ---------------------------------------------------------------------
  // Lowering
  // ---------------------------------------------------------------------

  function Lower(node: Node): Prog
    decreases node, 1
  {
    match node
    case ConcatNode(children) => LowerAll(children)
    case AlternateNode(children) => LowerAny(children)
    case RepeatNode(child, minimum, maximum, copyForUnbounded) =>
      var body := Lower(child);
      if maximum.None? && !copyForUnbounded then (if minimum == 0 then Star(body) else Plus(body))
      else
        var copies := Times(body, minimum);
        if maximum == Some(minimum) then copies
        else if maximum.None? then Cat(copies, Star(body))
        else if maximum.value < minimum then copies
        else Options(copies, body, maximum.value - minimum)
    case _ => Test(node)
  }

  function LowerAll(nodes: seq<Node>): Prog
    decreases nodes, 0
  {
    if nodes == [] then Empty else Cat(LowerAll(nodes[..|nodes| - 1]), Lower(nodes[|nodes| - 1]))
  }

  function LowerAny(nodes: seq<Node>): Prog
    decreases nodes, 0
  {
    if nodes == [] then Empty
    else if |nodes| == 1 then Lower(nodes[0])
    else Alt(Lower(nodes[0]), LowerAny(nodes[1..]))
  }

  function Times(body: Prog, n: nat): Prog {
    if n == 0 then Empty else Cat(Times(body, n - 1), body)
  }

  function Options(base: Prog, body: Prog, n: nat): Prog {
    if n == 0 then base else Cat(Options(base, body, n - 1), Opt(body))
  }

  // ---------------------------------------------------------------------
  // Layout
  // ---------------------------------------------------------------------

  function Size(p: Prog): (n: nat) {
    match p
    case Empty => 0
    case Test(_) => 1
    case Cat(a, b) => Size(a) + Size(b)
    case Alt(a, b) => Size(a) + Size(b) + 1
    case Star(a) => Size(a) + 1
    case Plus(a) => Size(a) + 1
    case Opt(a) => Size(a) + 1
  }

  // Whether the fragment has a start state at all.
  predicate Starts(p: Prog) {
    match p
    case Empty => false
    case Cat(a, b) => Starts(a) || Starts(b)
    case Plus(a) => Starts(a)
    case _ => true
  }

  function Start(p: Prog, lo: nat): (q: nat)
    requires Starts(p)
    ensures lo <= q < lo + Size(p)
  {
    match p
    case Test(_) => lo
    case Cat(a, b) => if Starts(a) then Start(a, lo) else Start(b, lo + Size(a))
    case Plus(a) => Start(a, lo)
    case Alt(a, b) => lo + Size(a) + Size(b)
    case Star(a) => lo + Size(a)
    case Opt(a) => lo + Size(a)
  }

  function StartOf(p: Prog, lo: nat): Option<nat> {
    if Starts(p) then Some(Start(p, lo)) else None
  }

  // Where control goes on entering p: to its start, or straight on.
  function Entry(p: Prog, lo: nat, t: Option<nat>): Option<nat> {
    if Starts(p) then Some(Start(p, lo)) else t
  }

  function Code(p: Prog, lo: nat, t: Option<nat>): (code: seq<State>)
    ensures |code| == Size(p)
  {
    match p
    case Empty => []
    case Test(atom) => [State(Atom(atom), t, None)]
    case Cat(a, b) => Code(a, lo, Entry(b, lo + Size(a), t)) + Code(b, lo + Size(a), t)
    case Alt(a, b) =>
      Code(a, lo, t) + Code(b, lo + Size(a), t) + [State(Split, StartOf(a, lo), StartOf(b, lo + Size(a)))]
    case Star(a) => Code(a, lo, Some(lo + Size(a))) + [State(Split, StartOf(a, lo), t)]
    case Plus(a) => Code(a, lo, Some(lo + Size(a))) + [State(Split, StartOf(a, lo), t)]
    case Opt(a) => Code(a, lo, t) + [State(Split, StartOf(a, lo), t)]
  }

  // The pointers that still dangle, in the order in which the source lists them.
  function Outs(p: Prog, lo: nat): Exits {
    match p
    case Empty => []
    case Test(_) => [(lo, Out)]
    case Cat(a, b) => if !Starts(a) || Starts(b) then Outs(b, lo + Size(a)) else Outs(a, lo)
    case Alt(a, b) => Outs(a, lo) + Outs(b, lo + Size(a))
    case Star(a) => [(lo + Size(a), Out1)]
    case Plus(a) => [(lo + Size(a), Out1)]
    case Opt(a) => Outs(a, lo) + [(lo + Size(a), Out1)]
  }

  function FragmentOf(p: Prog, lo: nat): Fragment {
    Fragment(StartOf(p, lo), Outs(p, lo))
  }

  // No `+` over a fragment without states.
  predicate Solid(p: Prog) {
    match p
    case Empty => true
    case Test(_) => true
    case Cat(a, b) => Solid(a) && Solid(b)
    case Alt(a, b) => Solid(a) && Solid(b)
    case Star(a) => Solid(a)
    case Plus(a) => Solid(a) && Starts(a)
    case Opt(a) => Solid(a)
  }

  lemma {:induction false} StartsIffSize(p: Prog)
    requires Solid(p)
    ensures Starts(p) <==> Size(p) > 0
  {
    match p
    case Cat(a, b) => StartsIffSize(a); StartsIffSize(b);
    case Plus(a) => StartsIffSize(a);
    case _ =>
  }

  // ---------------------------------------------------------------------
  // Lowering keeps the count
  // ---------------------------------------------------------------------

  lemma {:induction false} SizeOfTimes(body: Prog, n: nat)
    ensures Size(Times(body, n)) == n * Size(body)
    ensures Solid(body) ==> Solid(Times(body, n))
  {
    if n > 0 {
      SizeOfTimes(body, n - 1);
      assert n * Size(body) == (n - 1) * Size(body) + Size(body);
    }
  }

  lemma {:induction false} SizeOfOptions(base: Prog, body: Prog, n: nat)
    ensures Size(Options(base, body, n)) == Size(base) + n * (Size(body) + 1)
    ensures Solid(base) && Solid(body) ==> Solid(Options(base, body, n))
  {
    if n > 0 {
      SizeOfOptions(base, body, n - 1);
      var each := Size(body) + 1;
      assert n * each == (n - 1) * each + each;
    }
  }

  // The static count is exact for every regular tree.
  lemma {:induction false} LowerKeepsCount(node: Node)
    requires Regular(node)
    ensures Size(Lower(node)) == StateCount(node) && Solid(Lower(node))
    decreases node, 1
  {
    match node
    case ConcatNode(children) => LowerAllKeepsCount(children);
    case AlternateNode(children) => LowerAnyKeepsCount(children);
    case RepeatNode(child, _, _, _) =>
      LowerKeepsCount(child);
      RepeatKeepsCount(node);
    case _ =>
  }

  lemma {:induction false} RepeatKeepsCount(node: Node)
    requires Regular(node) && node.RepeatNode?
    requires Size(Lower(node.child)) == StateCount(node.child) && Solid(Lower(node.child))
    ensures Size(Lower(node)) == StateCount(node) && Solid(Lower(node))
  {
    hide Size, Solid, StateCount, Lower, Times, Options;
    var body, low, each := Lower(node.child), node.minimum, StateCount(node.child);
    LoweredRepeat(node, body, each);
    SizeOfTimes(body, low);
    if node.maximum.None? {
      assert (low + 1) * each == low * each + each;
      SizeOfStar(Times(body, low), body);
    } else if node.maximum.value > low {
      SizeOfOptions(Times(body, low), body, node.maximum.value - low);
    }
  }

  lemma LoweredRepeat(node: Node, body: Prog, each: int)
    requires Regular(node) && node.RepeatNode? && body == Lower(node.child) && each == StateCount(node.child)
    requires Size(body) == each && Solid(body)
    ensures node.maximum.None? && !node.copyForUnbounded ==>
      Size(Lower(node)) == StateCount(node) && Solid(Lower(node))
    ensures node.maximum.None? && node.copyForUnbounded ==>
      Lower(node) == Cat(Times(body, node.minimum), Star(body)) && StateCount(node) == (node.minimum + 1) * each + 1
    ensures node.maximum == Some(node.minimum) ==>
      Lower(node) == Times(body, node.minimum) && StateCount(node) == node.minimum * each
    ensures node.maximum.Some? ==> node.minimum <= node.maximum.value
    ensures node.maximum.Some? && node.maximum.value > node.minimum ==>
      && Lower(node) == Options(Times(body, node.minimum), body, node.maximum.value - node.minimum)
      && StateCount(node) == node.minimum * each + (node.maximum.value - node.minimum) * (each + 1)
  {
    hide Times, Options;
    StartsIffSize(body);
  }

  lemma SizeOfStar(copies: Prog, body: Prog)
    ensures Size(Cat(copies, Star(body))) == Size(copies) + Size(body) + 1
    ensures Solid(Cat(copies, Star(body))) <==> Solid(copies) && Solid(body)
  {
  }

  lemma {:induction false} LowerAllKeepsCount(nodes: seq<Node>)
    requires forall k | 0 <= k < |nodes| :: Regular(nodes[k])
    ensures Size(LowerAll(nodes)) == StateCountSum(nodes) && Solid(LowerAll(nodes))
    decreases nodes, 0
  {
    if nodes != [] {
      LowerAllKeepsCount(nodes[..|nodes| - 1]);
      LowerKeepsCount(nodes[|nodes| - 1]);
    }
  }

  lemma {:induction false} StateCountSumFromFront(nodes: seq<Node>)
    requires nodes != []
    ensures StateCountSum(nodes) == StateCount(nodes[0]) + StateCountSum(nodes[1..])
    decreases |nodes|
  {
    if |nodes| > 1 {
      StateCountSumFromFront(nodes[..|nodes| - 1]);
      assert nodes[1..][..|nodes[1..]| - 1] == nodes[..|nodes| - 1][1..];
    }
  }

  lemma {:induction false} LowerAnyKeepsCount(nodes: seq<Node>)
    requires nodes != [] && forall k | 0 <= k < |nodes| :: Regular(nodes[k])
    ensures Size(LowerAny(nodes)) == StateCountSum(nodes) + |nodes| - 1 && Solid(LowerAny(nodes))
    decreases nodes, 0
  {
    LowerKeepsCount(nodes[0]);
    StateCountSumFromFront(nodes);
    if |nodes| > 1 {
      LowerAnyKeepsCount(nodes[1..]);
    }
  }

  // ---------------------------------------------------------------------
  // Patching
  // ---------------------------------------------------------------------

  function SetField(state: State, field: Field, t: nat): State {
    if field.Out? then state.(out := Some(t)) else state.(out1 := Some(t))
  }

  function Patched(states: seq<State>, outs: Exits, t: nat): (r: seq<State>)
    ensures |r| == |states|
    decreases |outs|
  {
    if outs == [] then states
    else
      var (index, field) := outs[0];
      Patched(if index < |states| then states[index := SetField(states[index], field, t)] else states, outs[1..], t)
  }

  lemma {:induction false} PatchedConcat(states: seq<State>, a: Exits, b: Exits, t: nat)
    ensures Patched(states, a + b, t) == Patched(Patched(states, a, t), b, t)
    decreases |a|
  {
    if a == [] {
      assert a + b == b;
    } else {
      assert (a + b)[1..] == a[1..] + b;
      var (index, field) := a[0];
      var next := if index < |states| then states[index := SetField(states[index], field, t)] else states;
      PatchedConcat(next, a[1..], b, t);
    }
  }

  // Patching the dangling pointers of p turns its open code into closed code
  // and touches nothing else.
  lemma {:induction false} PatchCloses(pre: seq<State>, p: Prog, post: seq<State>, t: nat)
    requires Solid(p)
    ensures Patched(pre + Code(p, |pre|, None) + post, Outs(p, |pre|), t) == pre + Code(p, |pre|, Some(t)) + post
    decreases p
  {
    var lo := |pre|;
    match p
    case Empty =>
    case Test(_) =>
      var open := pre + Code(p, lo, None) + post;
      PatchOne(open, lo, Out, t);
      assert open[lo := SetField(open[lo], Out, t)] == pre + Code(p, lo, Some(t)) + post;
    case Cat(a, b) => PatchClosesCat(pre, a, b, post, t);
    case Alt(a, b) => PatchClosesAlt(pre, a, b, post, t);
    case Star(a) =>
      var open := pre + Code(p, lo, None) + post;
      PatchOne(open, lo + Size(a), Out1, t);
      assert open[lo + Size(a) := SetField(open[lo + Size(a)], Out1, t)] == pre + Code(p, lo, Some(t)) + post;
    case Plus(a) =>
      var open := pre + Code(p, lo, None) + post;
      PatchOne(open, lo + Size(a), Out1, t);
      assert open[lo + Size(a) := SetField(open[lo + Size(a)], Out1, t)] == pre + Code(p, lo, Some(t)) + post;
    case Opt(a) => PatchClosesOpt(pre, a, post, t);
  }

  lemma PatchOne(states: seq<State>, index: nat, field: Field, t: nat)
    requires index < |states|
    ensures Patched(states, [(index, field)], t) == states[index := SetField(states[index], field, t)]
  {
    assert [(index, field)][1..] == [];
  }

  lemma SizeOfCat(a: Prog, b: Prog)
    ensures Size(Cat(a, b)) == Size(a) + Size(b)
  {
  }

  lemma StartOfCat(a: Prog, b: Prog, lo: nat)
    ensures Starts(Cat(a, b)) <==> Starts(a) || Starts(b)
    ensures Starts(a) ==> Start(Cat(a, b), lo) == Start(a, lo)
    ensures !Starts(a) && Starts(b) ==> Start(Cat(a, b), lo) == Start(b, lo + Size(a))
  {
    hide Code, Outs, Size;
  }

  lemma EntryOfCat(a: Prog, b: Prog, lo: nat, t: Option<nat>)
    ensures Size(Cat(a, b)) == Size(a) + Size(b)
    ensures Entry(Cat(a, b), lo, t) == Entry(a, lo, Entry(b, lo + Size(a), t))
  {
    hide Code, Outs, Size, Start, Starts;
    SizeOfCat(a, b);
    StartOfCat(a, b, lo);
  }

  lemma OutsOfCat(a: Prog, b: Prog, lo: nat)
    ensures Outs(Cat(a, b), lo) == if !Starts(a) || Starts(b) then Outs(b, lo + Size(a)) else Outs(a, lo)
  {
    hide Code, Start, Starts, Size;
  }

  lemma CodeOfCat(a: Prog, b: Prog, lo: nat, t: Option<nat>)
    ensures Size(Cat(a, b)) == Size(a) + Size(b)
    ensures Entry(Cat(a, b), lo, t) == Entry(a, lo, Entry(b, lo + Size(a), t))
    ensures Code(Cat(a, b), lo, t) == Code(a, lo, Entry(b, lo + Size(a), t)) + Code(b, lo + Size(a), t)
    ensures Outs(Cat(a, b), lo) == if !Starts(a) || Starts(b) then Outs(b, lo + Size(a)) else Outs(a, lo)
  {
    hide Outs, Start, Starts, Size, Entry;
    EntryOfCat(a, b, lo, t);
    OutsOfCat(a, b, lo);
  }

  lemma CodeOfEmpty(lo: nat, t: Option<nat>)
    ensures Code(Empty, lo, t) == [] && FragmentOf(Empty, lo) == Fragment(None, []) && Solid(Empty)
  {
  }

  lemma CodeOfTest(atom: Node, lo: nat, t: Option<nat>)
    ensures Code(Test(atom), lo, t) == [State(Atom(atom), t, None)]
    ensures FragmentOf(Test(atom), lo) == Fragment(Some(lo), [(lo, Out)])
  {
  }

  lemma EntryOfAlt(a: Prog, b: Prog, lo: nat, t: Option<nat>)
    ensures Size(Alt(a, b)) == Size(a) + Size(b) + 1
    ensures StartOf(Alt(a, b), lo) == Some(lo + Size(a) + Size(b)) == Entry(Alt(a, b), lo, t)
  {
    hide Code, Outs;
  }

  lemma OutsOfAlt(a: Prog, b: Prog, lo: nat)
    ensures Outs(Alt(a, b), lo) == Outs(a, lo) + Outs(b, lo + Size(a))
  {
    hide Code, Start, Starts, Size;
  }

  lemma CodeOfAlt(a: Prog, b: Prog, lo: nat, t: Option<nat>)
    ensures Size(Alt(a, b)) == Size(a) + Size(b) + 1
    ensures StartOf(Alt(a, b), lo) == Some(lo + Size(a) + Size(b)) == Entry(Alt(a, b), lo, t)
    ensures Code(Alt(a, b), lo, t) ==
      Code(a, lo, t) + Code(b, lo + Size(a), t) + [State(Split, StartOf(a, lo), StartOf(b, lo + Size(a)))]
    ensures Outs(Alt(a, b), lo) == Outs(a, lo) + Outs(b, lo + Size(a))
  {
    hide Outs, Start, Starts, Size, Entry, StartOf;
    EntryOfAlt(a, b, lo, t);
    OutsOfAlt(a, b, lo);
  }

  lemma EntryOfLoop(p: Prog, a: Prog, lo: nat, t: Option<nat>)
    requires p == Star(a) || p == Plus(a)
    ensures Size(p) == Size(a) + 1
    ensures Entry(p, lo, t) == if p.Star? then Some(lo + Size(a)) else Entry(a, lo, t)
    ensures FragmentOf(p, lo) ==
      Fragment(if p.Star? then Some(lo + Size(a)) else StartOf(a, lo), [(lo + Size(a), Out1)])
  {
    hide Code;
  }

  lemma CodeOfLoop(p: Prog, a: Prog, lo: nat, t: Option<nat>)
    requires p == Star(a) || p == Plus(a)
    ensures Size(p) == Size(a) + 1
    ensures Entry(p, lo, t) == if p.Star? then Some(lo + Size(a)) else Entry(a, lo, t)
    ensures Code(p, lo, t) == Code(a, lo, Some(lo + Size(a))) + [State(Split, StartOf(a, lo), t)]
  {
    hide Outs, Start, Starts, Size, Entry, StartOf;
    EntryOfLoop(p, a, lo, t);
  }

  lemma EntryOfOpt(a: Prog, lo: nat, t: Option<nat>)
    ensures Size(Opt(a)) == Size(a) + 1 && Entry(Opt(a), lo, t) == Some(lo + Size(a))
    ensures FragmentOf(Opt(a), lo) == Fragment(Some(lo + Size(a)), Outs(a, lo) + [(lo + Size(a), Out1)])
  {
    hide Code;
  }

  lemma CodeOfOpt(a: Prog, lo: nat, t: Option<nat>)
    ensures Size(Opt(a)) == Size(a) + 1 && Entry(Opt(a), lo, t) == Some(lo + Size(a))
    ensures FragmentOf(Opt(a), lo) == Fragment(Some(lo + Size(a)), Outs(a, lo) + [(lo + Size(a), Out1)])
    ensures Code(Opt(a), lo, t) == Code(a, lo, t) + [State(Split, StartOf(a, lo), t)]
  {
    hide Outs, Start, Starts, Size, Entry, StartOf;
    EntryOfOpt(a, lo, t);
  }

  lemma {:induction false} PatchClosesCat(pre: seq<State>, a: Prog, b: Prog, post: seq<State>, t: nat)
    requires Solid(a) && Solid(b)
    ensures Patched(pre + Code(Cat(a, b), |pre|, None) + post, Outs(Cat(a, b), |pre|), t)
         == pre + Code(Cat(a, b), |pre|, Some(t)) + post
    decreases Cat(a, b), 1
  {
    hide Code, Outs, Patched, Solid, Size, Start;
    var lo, mid := |pre|, |pre| + Size(a);
    CodeOfCat(a, b, lo, None);
    CodeOfCat(a, b, lo, Some(t));
    StartsIffSize(a);
    StartsIffSize(b);
    if Starts(b) {
      var codeA := Code(a, lo, Some(Start(b, mid)));
      PatchCloses(pre + codeA, b, post, t);
      Regroup(pre, codeA, Code(b, mid, None), post);
      Regroup(pre, codeA, Code(b, mid, Some(t)), post);
    } else {
      PatchCloses(pre, a, post, t);
      assert Code(Cat(a, b), lo, None) == Code(a, lo, None);
      assert Code(Cat(a, b), lo, Some(t)) == Code(a, lo, Some(t));
      if !Starts(a) {
        assert Code(a, lo, None) == Code(b, mid, None) && Code(a, lo, Some(t)) == Code(b, mid, Some(t));
        PatchCloses(pre, b, post, t);
      }
    }
  }

  lemma Regroup(a: seq<State>, b: seq<State>, c: seq<State>, d: seq<State>)
    ensures a + (b + c) + d == a + b + c + d == a + b + (c + d)
  {
  }

  lemma {:induction false} PatchClosesAlt(pre: seq<State>, a: Prog, b: Prog, post: seq<State>, t: nat)
    requires Solid(a) && Solid(b)
    ensures Patched(pre + Code(Alt(a, b), |pre|, None) + post, Outs(Alt(a, b), |pre|), t)
         == pre + Code(Alt(a, b), |pre|, Some(t)) + post
    decreases Alt(a, b), 1
  {
    hide Code, Outs, Patched, Solid, Size, Start;
    var lo, mid := |pre|, |pre| + Size(a);
    var split := [State(Split, StartOf(a, lo), StartOf(b, mid))];
    CodeOfAlt(a, b, lo, None);
    CodeOfAlt(a, b, lo, Some(t));
    var a0, a1, b0, b1 := Code(a, lo, None), Code(a, lo, Some(t)), Code(b, mid, None), Code(b, mid, Some(t));
    PatchTwo(pre, a, b, split, post, t);
    assert pre + (a0 + b0 + split) + post == pre + a0 + (b0 + split + post);
    assert pre + (a1 + b1 + split) + post == pre + a1 + b1 + (split + post);
  }

  lemma {:induction false} PatchTwo(pre: seq<State>, a: Prog, b: Prog, split: seq<State>, post: seq<State>, t: nat)
    requires Solid(a) && Solid(b)
    ensures Patched(pre + Code(a, |pre|, None) + (Code(b, |pre| + Size(a), None) + split + post),
                    Outs(a, |pre|) + Outs(b, |pre| + Size(a)), t)
         == pre + Code(a, |pre|, Some(t)) + Code(b, |pre| + Size(a), Some(t)) + (split + post)
    decreases Alt(a, b), 0
  {
    hide Code, Outs, Patched, Solid, Size, Start;
    var lo, mid := |pre|, |pre| + Size(a);
    var a0, a1, b0 := Code(a, lo, None), Code(a, lo, Some(t)), Code(b, mid, None);
    PatchedConcat(pre + a0 + (b0 + split + post), Outs(a, lo), Outs(b, mid), t);
    PatchCloses(pre, a, b0 + split + post, t);
    assert pre + a1 + (b0 + split + post) == pre + a1 + b0 + (split + post);
    PatchCloses(pre + a1, b, split + post, t);
  }

  lemma {:induction false} PatchClosesOpt(pre: seq<State>, a: Prog, post: seq<State>, t: nat)
    requires Solid(a)
    ensures Patched(pre + Code(Opt(a), |pre|, None) + post, Outs(Opt(a), |pre|), t)
         == pre + Code(Opt(a), |pre|, Some(t)) + post
    decreases Opt(a), 0
  {
    hide Code, Patched, Solid, Size, Start, Starts;
    var lo, mid := |pre|, |pre| + Size(a);
    CodeOfOpt(a, lo, None);
    CodeOfOpt(a, lo, Some(t));
    var open := pre + Code(Opt(a), lo, None) + post;
    var split := [State(Split, StartOf(a, lo), None)];
    PatchedConcat(open, Outs(a, lo), [(mid, Out1)], t);
    PatchCloses(pre, a, split + post, t);
    assert open == pre + Code(a, lo, None) + (split + post);
    var half := pre + Code(a, lo, Some(t)) + (split + post);
    PatchOne(half, mid, Out1, t);
    assert half[mid := SetField(half[mid], Out1, t)] == pre + Code(Opt(a), lo, Some(t)) + post;
  }
}
