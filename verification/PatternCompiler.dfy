/** `_Compiler`: fragments with dangling pointers, patched in place. */
module PatternCompiler {
  import opened Wrappers
  import opened PatternSyntax
  import opened PatternLayout
  import opened PatternMeaning

  lemma {:induction false} OutsInside(p: Prog, lo: nat)
    ensures forall k | 0 <= k < |Outs(p, lo)| :: lo <= Outs(p, lo)[k].0 < lo + Size(p)
    decreases p
  {
    match p
    case Empty =>
    case Test(_) =>
    case Cat(a, b) => OutsInside(a, lo); OutsInside(b, lo + Size(a));
    case Alt(a, b) => OutsInside(a, lo); OutsInside(b, lo + Size(a));
    case Star(a) =>
    case Plus(a) =>
    case Opt(a) => OutsInside(a, lo);
  }

  class Compiler {
    var states: seq<State>

    constructor ()
      ensures states == []
    {
      states := [];
    }

    method Add(state: State) returns (index: nat)
      modifies this
      ensures states == old(states) + [state] && index == |old(states)|
    {
      states := states + [state];
      index := |states| - 1;
    }

    method Patch(outs: Exits, target: nat)
      requires forall k | 0 <= k < |outs| :: outs[k].0 < |states|
      modifies this
      ensures states == Patched(old(states), outs, target)
    {
      for k := 0 to |outs|
        invariant |states| == |old(states)|
        invariant Patched(states, outs[k..], target) == Patched(old(states), outs, target)
      {
        assert outs[k..][0] == outs[k] && outs[k..][1..] == outs[k + 1..];
        var (index, field) := outs[k];
        states := states[index := SetField(states[index], field, target)];
      }
      assert outs[|outs|..] == [];
    }

    // The ghost parameters say what the two fragments are fragments of.
    method Concat(left: Fragment, right: Fragment, ghost pre: seq<State>, ghost a: Prog, ghost b: Prog)
      returns (r: Fragment)
      requires Solid(a) && Solid(b)
      requires states == pre + Code(a, |pre|, None) + Code(b, |pre| + Size(a), None)
      requires left == FragmentOf(a, |pre|) && right == FragmentOf(b, |pre| + Size(a))
      modifies this
      ensures Holds(pre, Cat(a, b), r)
    {
      hide Code, Outs, Size, Start, Solid, Patched;
      ghost var lo, mid := |pre|, |pre| + Size(a);
      StartsIffSize(a);
      StartsIffSize(b);
      CodeOfCat(a, b, lo, None);
      OutsInside(a, lo);
      assert pre + Code(Cat(a, b), lo, None) ==
        pre + Code(a, lo, Entry(b, mid, None)) + Code(b, mid, None);
      if left.start.None? {
        assert Code(a, lo, Entry(b, mid, None)) == Code(a, lo, None);
        return right;
      }
      if right.start.None? {
        return left;
      }
      PatchCloses(pre, a, Code(b, mid, None), right.start.value);
      Patch(left.outs, right.start.value);
      return Fragment(left.start, right.outs);
    }

    // The table is `pre` followed by the open code of p, and r is its fragment.
    ghost predicate Holds(pre: seq<State>, p: Prog, r: Fragment)
      reads this
    {
      states == pre + Code(p, |pre|, None) && r == FragmentOf(p, |pre|)
    }

    method CompileNode(node: Node) returns (r: Fragment)
      requires Regular(node)
      modifies this
      ensures Holds(old(states), Lower(node), r)
      decreases node, 2
    {
      hide Code, Outs, Size, Start, Starts, Solid;
      match node
      case ConcatNode(children) =>
        ghost var pre := states;
        CodeOfEmpty(|pre|, None);
        r := Fragment(None, []);
        for k := 0 to |children|
          invariant Holds(pre, LowerAll(children[..k]), r)
        {
          ghost var front := LowerAll(children[..k]);
          assert children[..k + 1][..k] == children[..k];
          LowerAllKeepsCount(children[..k]);
          LowerKeepsCount(children[k]);
          var child := CompileNode(children[k]);
          r := Concat(r, child, pre, front, Lower(children[k]));
        }
        assert children[..|children|] == children;
      case AlternateNode(children) =>
        r := CompileAlternate(node);
      case RepeatNode(_, _, _, _) =>
        r := CompileRepeat(node);
      case _ =>
        CodeOfTest(node, |states|, None);
        var index := Add(State(Atom(node), None, None));
        r := Fragment(Some(index), [(index, Out)]);
    }

    method CompileAlternate(node: Node) returns (r: Fragment)
      requires Regular(node) && node.AlternateNode?
      modifies this
      ensures Holds(old(states), Lower(node), r)
      decreases node, 1
    {
      hide Code, Outs, Size, Start, Starts, LowerAny, Codes, Fragments;
      ghost var pre, lo := states, |states|;
      var children := node.children;
      var fragments: seq<Fragment> := [];
      CodesNone(lo);
      for k := 0 to |children|
        invariant states == pre + Codes(children[..k], lo)
        invariant fragments == Fragments(children[..k], lo)
      {
        CodesMore(children, k, lo);
        var child := CompileNode(children[k]);
        fragments := fragments + [child];
      }
      assert children[..|children|] == children;
      r := JoinBranches(children, fragments, pre);
    }

    // Splits are added from the last branch to the first.
    method JoinBranches(ghost children: seq<Node>, fragments: seq<Fragment>, ghost pre: seq<State>)
      returns (r: Fragment)
      requires children != [] && fragments == Fragments(children, |pre|)
      requires states == pre + Codes(children, |pre|)
      modifies this
      ensures Holds(pre, LowerAny(children), r)
    {
      hide Codes, Fragments, LowerAny, Code, Outs, Size, Start, Starts;
      var k := |fragments| - 1;
      FragmentsAt(children, |pre|, k);
      JoinStart(children, |pre|);
      r := fragments[k];
      while k > 0
        invariant 0 <= k < |children|
        invariant Holds(pre + Codes(children[..k], |pre|), LowerAny(children[k..]), r)
      {
        k := k - 1;
        FragmentsAt(children, |pre|, k);
        JoinStep(children, |pre|, k);
        var fragment := fragments[k];
        ghost var at := pre + Codes(children[..k], |pre|);
        CodeOfAlt(Lower(children[k]), LowerAny(children[k + 1..]), |at|, None);
        var split := Add(State(Split, fragment.start, r.start));
        r := Fragment(Some(split), fragment.outs + r.outs);
        assert states == at + Code(LowerAny(children[k..]), |at|, None);
      }
      JoinEnd(children, pre);
    }

    method CompileRepeat(node: Node) returns (r: Fragment)
      requires Regular(node) && node.RepeatNode?
      modifies this
      ensures Holds(old(states), Lower(node), r)
      decreases node, 1
    {
      hide Code, Outs, Size, Start, Starts;
      ghost var pre, body := states, Lower(node.child);
      CodeOfEmpty(|pre|, None);
      LowerKeepsCount(node.child);
      if node.maximum.None? && !node.copyForUnbounded {
        r := CompileLoop(node.child, node.minimum == 0);
        return;
      }
      r := Fragment(None, []);
      for k := 0 to node.minimum
        invariant Holds(pre, Times(body, k), r)
      {
        SizeOfTimes(body, k);
        var child := CompileNode(node.child);
        r := Concat(r, child, pre, Times(body, k), body);
      }
      SizeOfTimes(body, node.minimum);
      if node.maximum == Some(node.minimum) {
        return;
      }
      if node.maximum.None? {
        var star := CompileLoop(node.child, true);
        r := Concat(r, star, pre, Times(body, node.minimum), Star(body));
        return;
      }
      r := CompileOptions(node, r, pre, Times(body, node.minimum));
    }

    method CompileOptions(node: Node, base: Fragment, ghost pre: seq<State>, ghost copies: Prog) returns (r: Fragment)
      requires Regular(node) && node.RepeatNode? && node.maximum.Some? && Solid(copies)
      requires Holds(pre, copies, base)
      modifies this
      ensures Holds(pre, Options(copies, Lower(node.child), node.maximum.value - node.minimum), r)
      decreases node, 0
    {
      hide Code, Outs, Size, Start, Starts, Solid, Lower, Patched;
      ghost var body := Lower(node.child);
      LowerKeepsCount(node.child);
      SolidOpt(body);
      r := base;
      for k := 0 to node.maximum.value - node.minimum
        invariant Holds(pre, Options(copies, body, k), r)
      {
        SizeOfOptions(copies, body, k);
        ghost var mid := states;
        var child := CompileNode(node.child);
        CodeOfOpt(body, |mid|, None);
        var split := Add(State(Split, child.start, None));
        assert states == mid + Code(Opt(body), |mid|, None);
        r := Concat(r, Fragment(Some(split), child.outs + [(split, Out1)]), pre, Options(copies, body, k), Opt(body));
      }
    }

    // A body and the split that leads back to it: `*` enters at the split, `+` at the body.
    method CompileLoop(child: Node, skippable: bool) returns (r: Fragment)
      requires Regular(child) && (!skippable ==> StateCount(child) > 0)
      modifies this
      ensures Holds(old(states), if skippable then Star(Lower(child)) else Plus(Lower(child)), r)
      decreases child, 3
    {
      hide Code, Outs, Size, Start, Starts, Solid, Patched;
      ghost var pre, body := states, Lower(child);
      LowerKeepsCount(child);
      StartsIffSize(body);
      var inner := CompileNode(child);
      var split := Add(State(Split, inner.start, None));
      OutsInside(body, |pre|);
      PatchCloses(pre, body, [State(Split, inner.start, None)], split);
      ghost var loop := if skippable then Star(body) else Plus(body);
      LoopParts(pre, loop, body, split);
      EntryOfLoop(loop, body, |pre|, None);
      Patch(inner.outs, split);
      r := Fragment(if skippable then Some(split) else inner.start, [(split, Out1)]);
    }

    // The whole of `_Compiler.compile`.
    method Compile(node: Node) returns (start: nat)
      requires Regular(node) && states == []
      modifies this
      ensures states == Machine(node) && start == MachineStart(node)
    {
      hide Code, Size, Outs, Start, Starts, Solid, Lower, Patched;
      ghost var p := Lower(node);
      LowerKeepsCount(node);
      StartsIffSize(p);
      OutsInside(p, 0);
      var fragment := CompileNode(node);
      assert states == Code(p, 0, None);
      var accept := Add(State(Match, None, None));
      if fragment.start.None? {
        start := accept;
        assert Code(p, 0, None) == Code(p, 0, Some(accept));
      } else {
        start := fragment.start.value;
        PatchCloses([], p, [State(Match, None, None)], accept);
        assert states == [] + Code(p, 0, None) + [State(Match, None, None)];
        Patch(fragment.outs, accept);
        assert states == [] + Code(p, 0, Some(accept)) + [State(Match, None, None)];
      }
    }
  }

  lemma Appended(a: seq<State>, b: seq<State>, c: seq<State>, whole: seq<State>)
    requires whole == b + c
    ensures a + whole == a + b + c
  {
  }

  // A loop is its body closed on the split behind it.
  lemma LoopParts(pre: seq<State>, loop: Prog, body: Prog, split: nat)
    requires (loop == Star(body) || loop == Plus(body)) && split == |pre| + Size(body)
    ensures pre + Code(loop, |pre|, None) ==
      pre + Code(body, |pre|, Some(split)) + [State(Split, StartOf(body, |pre|), None)]
  {
    hide Code, Outs, Size, StartOf, Entry;
    CodeOfLoop(loop, body, |pre|, None);
    Appended(pre, Code(body, |pre|, Some(split)), [State(Split, StartOf(body, |pre|), None)], Code(loop, |pre|, None));
  }

  lemma CodesNone(lo: nat)
    ensures Codes([], lo) == [] && Fragments([], lo) == []
  {
  }

  // One more branch.
  lemma CodesMore(nodes: seq<Node>, k: nat, lo: nat)
    requires k < |nodes|
    ensures var at := lo + |Codes(nodes[..k], lo)|;
      && Codes(nodes[..k + 1], lo) == Codes(nodes[..k], lo) + Code(Lower(nodes[k]), at, None)
      && Fragments(nodes[..k + 1], lo) == Fragments(nodes[..k], lo) + [FragmentOf(Lower(nodes[k]), at)]
  {
    hide Code, Outs, Size, Start, Starts, Lower;
    assert nodes[..k + 1][..k] == nodes[..k];
  }

  // The branches of an alternation, compiled one after the other.
  function Codes(nodes: seq<Node>, lo: nat): seq<State> {
    if nodes == [] then []
    else
      var front := Codes(nodes[..|nodes| - 1], lo);
      front + Code(Lower(nodes[|nodes| - 1]), lo + |front|, None)
  }

  function Fragments(nodes: seq<Node>, lo: nat): (r: seq<Fragment>)
    ensures |r| == |nodes|
  {
    if nodes == [] then []
    else
      Fragments(nodes[..|nodes| - 1], lo)
      + [FragmentOf(Lower(nodes[|nodes| - 1]), lo + |Codes(nodes[..|nodes| - 1], lo)|)]
  }

  lemma {:induction false} FragmentsAt(nodes: seq<Node>, lo: nat, k: nat)
    requires k < |nodes|
    ensures Fragments(nodes, lo)[k] == FragmentOf(Lower(nodes[k]), lo + |Codes(nodes[..k], lo)|)
    decreases |nodes|
  {
    hide Code, Codes, Outs, Size, Start, Starts, Lower;
    if k < |nodes| - 1 {
      FragmentsAt(nodes[..|nodes| - 1], lo, k);
      assert nodes[..|nodes| - 1][..k] == nodes[..k];
    }
  }

  lemma SolidOpt(p: Prog)
    ensures Solid(Opt(p)) <==> Solid(p)
  {
  }

  lemma JoinStart(nodes: seq<Node>, lo: nat)
    requires nodes != []
    ensures var k := |nodes| - 1;
      && Codes(nodes, lo) == Codes(nodes[..k], lo) + Code(LowerAny(nodes[k..]), lo + |Codes(nodes[..k], lo)|, None)
      && LowerAny(nodes[k..]) == Lower(nodes[k])
  {
    hide Code, Size, Starts, Start, Outs, Lower;
    assert nodes[|nodes| - 1..] == [nodes[|nodes| - 1]];
  }

  lemma JoinStep(nodes: seq<Node>, lo: nat, k: nat)
    requires k + 1 < |nodes|
    ensures LowerAny(nodes[k..]) == Alt(Lower(nodes[k]), LowerAny(nodes[k + 1..]))
    ensures Codes(nodes[..k + 1], lo) ==
      Codes(nodes[..k], lo) + Code(Lower(nodes[k]), lo + |Codes(nodes[..k], lo)|, None)
    ensures |Codes(nodes[..k + 1], lo)| == |Codes(nodes[..k], lo)| + Size(Lower(nodes[k]))
  {
    assert nodes[..k + 1][..k] == nodes[..k];
    assert nodes[k..][0] == nodes[k] && nodes[k..][1..] == nodes[k + 1..];
  }

  lemma JoinEnd(nodes: seq<Node>, pre: seq<State>)
    ensures nodes[0..] == nodes && nodes[..0] == [] && pre + Codes(nodes[..0], |pre|) == pre
  {
  }
}
