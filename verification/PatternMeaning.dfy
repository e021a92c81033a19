/** The machine of a pattern accepts exactly the pattern's language. */
module PatternMeaning {
  import opened Wrappers
  import opened PatternSyntax
  import opened PatternLayout
  import opened PatternMachine

  // ---------------------------------------------------------------------
  // Repetition
  // ---------------------------------------------------------------------

  lemma {:induction false} TimesAppend(p: Prog, n: nat, value: string, i: nat, k: nat, j: nat)
    requires AtomsOnly(p) && MovesTimes(p, n, value, i, k) && Moves(p, value, k, j)
    ensures MovesTimes(p, n + 1, value, i, j)
    decreases n
  {
    if n == 0 {
      assert MovesTimes(p, 0, value, j, j);
    } else {
      var h := FirstTime(p, n, value, i, k);
      TimesAppend(p, n - 1, value, h, k, j);
    }
  }

  lemma {:induction false} TimesLast(p: Prog, n: nat, value: string, i: nat, j: nat) returns (k: nat)
    requires AtomsOnly(p) && n > 0 && MovesTimes(p, n, value, i, j)
    ensures MovesTimes(p, n - 1, value, i, k) && Moves(p, value, k, j)
    decreases n
  {
    var h := FirstTime(p, n, value, i, j);
    if n == 1 {
      k := i;
    } else {
      k := TimesLast(p, n - 1, value, h, j);
      assert MovesTimes(p, n - 1, value, i, k);
    }
  }

  lemma {:induction false} TimesJoin(p: Prog, m: nat, n: nat, value: string, i: nat, k: nat, j: nat)
    requires AtomsOnly(p) && MovesTimes(p, m, value, i, k) && MovesTimes(p, n, value, k, j)
    ensures MovesTimes(p, m + n, value, i, j)
    decreases m
  {
    if m > 0 {
      var h := FirstTime(p, m, value, i, k);
      TimesJoin(p, m - 1, n, value, h, k, j);
    }
  }

  lemma {:induction false} TimesSplit(p: Prog, m: nat, n: nat, value: string, i: nat, j: nat) returns (k: nat)
    requires AtomsOnly(p) && MovesTimes(p, m + n, value, i, j)
    ensures MovesTimes(p, m, value, i, k) && MovesTimes(p, n, value, k, j)
    decreases m
  {
    if m == 0 {
      k := i;
    } else {
      var h := FirstTime(p, m + n, value, i, j);
      k := TimesSplit(p, m - 1, n, value, h, j);
    }
  }

  lemma {:induction false} CopiesAreTimes(body: Prog, n: nat, value: string, i: nat, j: nat)
    requires AtomsOnly(body)
    ensures AtomsOnly(Times(body, n))
    ensures Moves(Times(body, n), value, i, j) <==> MovesTimes(body, n, value, i, j)
    decreases n
  {
    if n > 0 {
      CopiesAreTimes(body, n - 1, value, i, j);
      if Moves(Times(body, n), value, i, j) {
        var k := CatMiddle(Times(body, n - 1), body, value, i, j);
        CopiesAreTimes(body, n - 1, value, i, k);
        TimesAppend(body, n - 1, value, i, k, j);
      }
      if MovesTimes(body, n, value, i, j) {
        var k := TimesLast(body, n, value, i, j);
        CopiesAreTimes(body, n - 1, value, i, k);
      }
    }
  }

  lemma {:induction false} OptionsAreAtoms(body: Prog, low: nat, d: nat)
    requires AtomsOnly(body)
    ensures AtomsOnly(Options(Times(body, low), body, d))
  {
    if d == 0 { CopiesAreTimes(body, low, "", 0, 0); } else { OptionsAreAtoms(body, low, d - 1); }
  }

  lemma {:induction false} OptionsCount(body: Prog, low: nat, d: nat, value: string, i: nat, j: nat) returns (n: nat)
    requires AtomsOnly(body) && AtomsOnly(Options(Times(body, low), body, d))
    requires Moves(Options(Times(body, low), body, d), value, i, j)
    ensures low <= n <= low + d && MovesTimes(body, n, value, i, j)
  {
    if d == 0 {
      CopiesAreTimes(body, low, value, i, j);
      n := low;
    } else {
      var before := Options(Times(body, low), body, d - 1);
      var k := CatMiddle(before, Opt(body), value, i, j);
      n := OptionsCount(body, low, d - 1, value, i, k);
      if k != j {
        TimesAppend(body, n, value, i, k, j);
        n := n + 1;
      }
    }
  }

  lemma {:induction false} OptionsOf(body: Prog, low: nat, d: nat, n: nat, value: string, i: nat, j: nat)
    requires AtomsOnly(body) && AtomsOnly(Options(Times(body, low), body, d))
    requires low <= n <= low + d && MovesTimes(body, n, value, i, j)
    ensures Moves(Options(Times(body, low), body, d), value, i, j)
  {
    if d == 0 {
      CopiesAreTimes(body, low, value, i, j);
    } else {
      var before := Options(Times(body, low), body, d - 1);
      if n < low + d {
        OptionsOf(body, low, d - 1, n, value, i, j);
        CatThrough(before, Opt(body), value, i, j, j);
      } else {
        var k := TimesLast(body, n, value, i, j);
        OptionsOf(body, low, d - 1, n - 1, value, i, k);
        CatThrough(before, Opt(body), value, i, k, j);
      }
    }
  }

  // ---------------------------------------------------------------------
  // Lowering keeps the meaning
  // ---------------------------------------------------------------------

  lemma {:induction false} LowerIsAtoms(node: Node)
    ensures AtomsOnly(Lower(node))
    decreases node, 1
  {
    match node
    case ConcatNode(children) => LowerAllIsAtoms(children);
    case AlternateNode(children) => LowerAnyIsAtoms(children);
    case RepeatNode(child, minimum, maximum, _) =>
      LowerIsAtoms(child);
      CopiesAreTimes(Lower(child), minimum, "", 0, 0);
      if maximum.Some? && maximum.value >= minimum {
        OptionsAreAtoms(Lower(child), minimum, maximum.value - minimum);
      }
    case _ =>
  }

  lemma {:induction false} LowerAllIsAtoms(nodes: seq<Node>)
    ensures AtomsOnly(LowerAll(nodes))
    decreases nodes, 0
  {
    if nodes != [] {
      LowerAllIsAtoms(nodes[..|nodes| - 1]);
      LowerIsAtoms(nodes[|nodes| - 1]);
    }
  }

  lemma {:induction false} LowerAnyIsAtoms(nodes: seq<Node>)
    ensures AtomsOnly(LowerAny(nodes))
    decreases nodes, 0
  {
    if nodes != [] {
      LowerIsAtoms(nodes[0]);
      LowerAnyIsAtoms(nodes[1..]);
    }
  }

  lemma StartsIffStates(node: Node)
    requires Regular(node)
    ensures Starts(Lower(node)) <==> StateCount(node) > 0
    ensures Solid(Lower(node))
  {
    LowerKeepsCount(node);
    StartsIffSize(Lower(node));
  }

  lemma {:induction false} LowerKeepsMeaning(node: Node, value: string, i: nat, j: nat)
    requires Regular(node)
    ensures AtomsOnly(Lower(node))
    ensures Moves(Lower(node), value, i, j) <==> Spans(node, false, value, i, j)
    decreases node, 1
  {
    LowerIsAtoms(node);
    match node
    case ConcatNode(children) => LowerAllKeepsMeaning(children, value, i, j);
    case AlternateNode(children) => LowerAnyKeepsMeaning(children, value, i, j);
    case RepeatNode(child, _, _, _) => LowerRepeatKeepsMeaning(node, value, i, j);
    case _ =>
  }

  lemma {:induction false} LowerAllKeepsMeaning(nodes: seq<Node>, value: string, i: nat, j: nat)
    requires forall k | 0 <= k < |nodes| :: Regular(nodes[k])
    ensures AtomsOnly(LowerAll(nodes))
    ensures Moves(LowerAll(nodes), value, i, j) <==> SpansAll(nodes, false, value, i, j)
    decreases nodes, 0
  {
    LowerAllIsAtoms(nodes);
    if nodes != [] {
      var front, last := nodes[..|nodes| - 1], nodes[|nodes| - 1];
      if Moves(LowerAll(nodes), value, i, j) {
        var k := CatMiddle(LowerAll(front), Lower(last), value, i, j);
        LowerAllKeepsMeaning(front, value, i, k);
        LowerKeepsMeaning(last, value, k, j);
      }
      if SpansAll(nodes, false, value, i, j) {
        var k := SpansAllMiddle(nodes, false, value, i, j);
        LowerAllKeepsMeaning(front, value, i, k);
        LowerKeepsMeaning(last, value, k, j);
      }
    }
  }

  lemma {:induction false} LowerAnyKeepsMeaning(nodes: seq<Node>, value: string, i: nat, j: nat)
    requires nodes != [] && forall k | 0 <= k < |nodes| :: Regular(nodes[k])
    ensures AtomsOnly(LowerAny(nodes))
    ensures Starts(LowerAny(nodes)) && Moves(LowerAny(nodes), value, i, j) <==> SpansAny(nodes, false, value, i, j)
    decreases nodes, 0
  {
    LowerAnyIsAtoms(nodes);
    LowerKeepsMeaning(nodes[0], value, i, j);
    StartsIffStates(nodes[0]);
    if |nodes| > 1 {
      LowerAnyKeepsMeaning(nodes[1..], value, i, j);
    } else {
      assert !SpansAny(nodes[1..], false, value, i, j);
    }
  }

  lemma {:induction false} TimesKeepsMeaning(child: Node, n: nat, value: string, i: nat, j: nat)
    requires Regular(child)
    ensures AtomsOnly(Lower(child))
    ensures MovesTimes(Lower(child), n, value, i, j) <==> SpansTimes(child, n, false, value, i, j)
    decreases child, 2, n
  {
    LowerIsAtoms(child);
    if n > 0 {
      if MovesTimes(Lower(child), n, value, i, j) {
        var k := TimesLast(Lower(child), n, value, i, j);
        TimesKeepsMeaning(child, n - 1, value, i, k);
        LowerKeepsMeaning(child, value, k, j);
      }
      if SpansTimes(child, n, false, value, i, j) {
        var k := SpansTimesLast(child, n, false, value, i, j);
        TimesKeepsMeaning(child, n - 1, value, i, k);
        LowerKeepsMeaning(child, value, k, j);
        TimesAppend(Lower(child), n - 1, value, i, k, j);
      }
    }
  }

  lemma {:induction false} LoweredRepeatCount(node: Node, value: string, i: nat, j: nat) returns (n: nat)
    requires Regular(node) && node.RepeatNode? && AtomsOnly(Lower(node)) && AtomsOnly(Lower(node.child))
    requires Moves(Lower(node), value, i, j)
    ensures Allows(node, n) && MovesTimes(Lower(node.child), n, value, i, j)
  {
    var body, low := Lower(node.child), node.minimum;
    if node.maximum.None? && !node.copyForUnbounded {
      n :| Allows(node, n) && MovesTimes(body, n, value, i, j);
    } else if node.maximum.Some? {
      if node.maximum.value == low { CopiesAreTimes(body, low, value, i, j); n := low; }
      else { n := OptionsCount(body, low, node.maximum.value - low, value, i, j); }
    } else {
      var k := CatMiddle(Times(body, low), Star(body), value, i, j);
      var rest := StarCount(body, value, k, j);
      CopiesAreTimes(body, low, value, i, k);
      TimesJoin(body, low, rest, value, i, k, j);
      n := low + rest;
    }
  }

  lemma {:induction false} LoweredRepeatOf(node: Node, n: nat, value: string, i: nat, j: nat)
    requires Regular(node) && node.RepeatNode? && AtomsOnly(Lower(node)) && AtomsOnly(Lower(node.child))
    requires Allows(node, n) && MovesTimes(Lower(node.child), n, value, i, j)
    ensures Moves(Lower(node), value, i, j)
  {
    var body, low := Lower(node.child), node.minimum;
    if node.maximum.None? && !node.copyForUnbounded {
    } else if node.maximum.Some? {
      if node.maximum.value == low { CopiesAreTimes(body, low, value, i, j); }
      else { OptionsOf(body, low, node.maximum.value - low, n, value, i, j); }
    } else {
      var k := TimesSplit(body, low, n - low, value, i, j);
      CopiesAreTimes(body, low, value, i, k);
      StarOf(body, n - low, value, k, j);
      CatThrough(Times(body, low), Star(body), value, i, k, j);
    }
  }

  lemma {:induction false} LowerRepeatKeepsMeaning(node: Node, value: string, i: nat, j: nat)
    requires Regular(node) && node.RepeatNode?
    ensures AtomsOnly(Lower(node))
    ensures Moves(Lower(node), value, i, j) <==> Spans(node, false, value, i, j)
    decreases node, 0
  {
    LowerIsAtoms(node);
    LowerIsAtoms(node.child);
    if Moves(Lower(node), value, i, j) {
      var n := LoweredRepeatCount(node, value, i, j);
      TimesKeepsMeaning(node.child, n, value, i, j);
      RepeatOf(node, n, false, value, i, j);
    }
    if Spans(node, false, value, i, j) {
      var n := RepeatCount(node, false, value, i, j);
      TimesKeepsMeaning(node.child, n, value, i, j);
      LoweredRepeatOf(node, n, value, i, j);
    }
  }

  // ---------------------------------------------------------------------
  // The whole machine
  // ---------------------------------------------------------------------

  // The state table of `_Compiler.compile`: the tree's code, then the match state.
  function Machine(node: Node): seq<State> {
    Code(Lower(node), 0, Some(Size(Lower(node)))) + [State(Match, None, None)]
  }

  function MachineStart(node: Node): nat {
    if Starts(Lower(node)) then Start(Lower(node), 0) else Size(Lower(node))
  }

  lemma {:induction false} SpanIsAccepted(node: Node, value: string, i: nat, j: nat)
    requires Regular(node) && i <= |value| && Spans(node, false, value, i, j)
    ensures Accepts(Machine(node), value, Some(MachineStart(node)), i)
  {
    var p, machine := Lower(node), Machine(node);
    MachineHoldsCode(node);
    LowerKeepsMeaning(node, value, i, j);
    MovesStayInside(p, value, i, j);
    assert AcceptsIn(machine, value, Some(Size(p)), j, 0);
    SpanRuns(machine, value, p, 0, Some(Size(p)), i, j);
  }

  lemma {:induction false} AcceptedIsSpan(node: Node, value: string, i: nat) returns (j: nat)
    requires Regular(node) && Accepts(Machine(node), value, Some(MachineStart(node)), i)
    ensures Spans(node, false, value, i, j)
  {
    var n: nat :| AcceptsIn(Machine(node), value, Some(MachineStart(node)), i, n);
    MachineHoldsCode(node);
    var m;
    j, m := RunSpans(Machine(node), value, Lower(node), 0, Some(Size(Lower(node))), i, n);
    LowerKeepsMeaning(node, value, i, j);
  }

  lemma MachineHoldsCode(node: Node)
    requires Regular(node)
    ensures Solid(Lower(node)) && AtomsOnly(Lower(node))
    ensures Placed(Machine(node), Lower(node), 0, Some(Size(Lower(node))))
    ensures Machine(node)[Size(Lower(node))].kind == Match
  {
    StartsIffStates(node);
    LowerIsAtoms(node);
    assert Machine(node)[0..Size(Lower(node))] == Code(Lower(node), 0, Some(Size(Lower(node))));
  }
}
