/** Alternation branches that compile to no state.

    `_Compiler._node` gives such a branch (`a{0}` in `a{0}|b`) no start, so the
    split has a pointer that is never set and the branch is never taken.  This
    module says exactly when that changes what an alternation means. */
module PatternDeadBranches {
  import opened Wrappers
  import opened PatternSyntax
  import opened PatternLayout
  import opened PatternMachine
  import opened PatternMeaning
  import opened PatternSearch

  // The compiled node matches the empty string wherever the given anchors hold.
  predicate Nullable(node: Node, held: set<Anchor>)
    decreases node
  {
    match node
    case ConcatNode(children) => forall k | 0 <= k < |children| :: Nullable(children[k], held)
    case AlternateNode(children) =>
      exists k | 0 <= k < |children| :: StateCount(children[k]) > 0 && Nullable(children[k], held)
    case RepeatNode(child, minimum, _, _) => minimum == 0 || Nullable(child, held)
    case AnchorNode(kind) => kind in held
    case _ => false
  }

  // The anchors that hold at a position of a value.
  function Held(value: string, i: nat): set<Anchor> {
    (if i == 0 then {Begin} else {}) + (if i == |value| then {End} else {})
  }

  predicate HasDeadBranch(branches: seq<Node>) {
    exists k | 0 <= k < |branches| :: StateCount(branches[k]) <= 0
  }

  predicate HasNullableBranch(branches: seq<Node>, held: set<Anchor>) {
    exists k | 0 <= k < |branches| :: StateCount(branches[k]) > 0 && Nullable(branches[k], held)
  }

  // Every alternation with a dead branch has a live one that matches empty.
  predicate Forgiving(node: Node)
    decreases node
  {
    match node
    case ConcatNode(children) => forall k | 0 <= k < |children| :: Forgiving(children[k])
    case AlternateNode(children) =>
      && (forall k | 0 <= k < |children| :: Forgiving(children[k]))
      && (HasDeadBranch(children) ==> HasNullableBranch(children, {}))
    case RepeatNode(child, _, _, _) => Forgiving(child)
    case _ => true
  }

  // ---------------------------------------------------------------------
  // Spans of alternations, branch by branch
  // ---------------------------------------------------------------------

  lemma {:induction false} SpansAnyOf(nodes: seq<Node>, k: nat, strict: bool, value: string, i: nat, j: nat)
    requires k < |nodes| && (strict || StateCount(nodes[k]) > 0) && Spans(nodes[k], strict, value, i, j)
    ensures SpansAny(nodes, strict, value, i, j)
    decreases k
  {
    if k > 0 { SpansAnyOf(nodes[1..], k - 1, strict, value, i, j); }
  }

  lemma {:induction false} SpansAnyBranch(nodes: seq<Node>, strict: bool, value: string, i: nat, j: nat)
    returns (k: nat)
    requires SpansAny(nodes, strict, value, i, j)
    ensures k < |nodes| && (strict || StateCount(nodes[k]) > 0) && Spans(nodes[k], strict, value, i, j)
    decreases |nodes|
  {
    if (strict || StateCount(nodes[0]) > 0) && Spans(nodes[0], strict, value, i, j) {
      k := 0;
    } else {
      k := SpansAnyBranch(nodes[1..], strict, value, i, j);
      k := k + 1;
    }
  }

  // ---------------------------------------------------------------------
  // Dead nodes match exactly the empty string
  // ---------------------------------------------------------------------

  lemma {:induction false} DeadSpansEmpty(node: Node, strict: bool, value: string, i: nat, j: nat)
    requires Regular(node) && StateCount(node) <= 0
    ensures Spans(node, strict, value, i, j) <==> i == j
    decreases node, 1
  {
    LowerKeepsCount(node);
    match node
    case ConcatNode(children) => DeadSpansAllEmpty(children, strict, value, i, j);
    case AlternateNode(children) => LowerAnyKeepsCount(children);
    case RepeatNode(child, minimum, maximum, _) =>
      LowerKeepsCount(child);
      DeadRepeat(minimum, maximum, StateCount(child), node);
      if Spans(node, strict, value, i, j) {
        var n := RepeatCount(node, strict, value, i, j);
        DeadTimesEmpty(child, n, strict, value, i, j);
      }
      if i == j {
        DeadTimesEmpty(child, minimum, strict, value, i, j);
        RepeatOf(node, minimum, strict, value, i, j);
      }
    case _ =>
  }

  lemma DeadRepeat(minimum: nat, maximum: Option<nat>, each: int, node: Node)
    requires node.RepeatNode? && node.minimum == minimum && node.maximum == maximum
    requires Regular(node) && StateCount(node) <= 0 && each == StateCount(node.child) >= 0
    ensures maximum == Some(minimum) && (minimum == 0 || each == 0)
  {
    ProductSign(minimum, each);
    ProductSign(minimum + 1, each);
    if maximum.Some? {
      ProductSign(maximum.value - minimum, each + 1);
    }
  }

  lemma ProductSign(a: nat, b: nat)
    ensures a * b >= 0 && (a * b == 0 <==> a == 0 || b == 0)
  {
  }

  lemma {:induction false} DeadSpansAllEmpty(nodes: seq<Node>, strict: bool, value: string, i: nat, j: nat)
    requires (forall k | 0 <= k < |nodes| :: Regular(nodes[k])) && StateCountSum(nodes) <= 0
    ensures SpansAll(nodes, strict, value, i, j) <==> i == j
    decreases nodes, 0
  {
    if nodes != [] {
      var front, last := nodes[..|nodes| - 1], nodes[|nodes| - 1];
      LowerAllKeepsCount(front);
      LowerKeepsCount(last);
      if SpansAll(nodes, strict, value, i, j) {
        var k := SpansAllMiddle(nodes, strict, value, i, j);
        DeadSpansAllEmpty(front, strict, value, i, k);
        DeadSpansEmpty(last, strict, value, k, j);
      }
      if i == j {
        DeadSpansAllEmpty(front, strict, value, i, i);
        DeadSpansEmpty(last, strict, value, i, i);
        SpansAllThrough(nodes, strict, value, i, i, i);
      }
    }
  }

  lemma {:induction false} DeadTimesEmpty(node: Node, n: nat, strict: bool, value: string, i: nat, j: nat)
    requires Regular(node) && (n == 0 || StateCount(node) <= 0)
    ensures SpansTimes(node, n, strict, value, i, j) <==> i == j
    decreases node, 2, n
  {
    if n > 0 {
      if SpansTimes(node, n, strict, value, i, j) {
        var k := SpansTimesLast(node, n, strict, value, i, j);
        DeadTimesEmpty(node, n - 1, strict, value, i, k);
        DeadSpansEmpty(node, strict, value, k, j);
      }
      if i == j {
        DeadTimesEmpty(node, n - 1, strict, value, i, i);
        DeadSpansEmpty(node, strict, value, i, i);
        SpansTimesMore(node, n, strict, value, i, i, i);
      }
    }
  }

  // ---------------------------------------------------------------------
  // A compiled node matches the empty string exactly where it is nullable
  // ---------------------------------------------------------------------

  lemma {:induction false} NullableSpansEmpty(node: Node, held: set<Anchor>, value: string, i: nat)
    requires Regular(node) && Nullable(node, held) && held <= Held(value, i)
    ensures Spans(node, false, value, i, i)
    decreases node, 1
  {
    match node
    case ConcatNode(children) => NullableSpansAll(children, held, value, i);
    case AlternateNode(children) =>
      var k :| 0 <= k < |children| && StateCount(children[k]) > 0 && Nullable(children[k], held);
      NullableSpansEmpty(children[k], held, value, i);
      SpansAnyOf(children, k, false, value, i, i);
    case RepeatNode(child, minimum, maximum, _) =>
      NullableSpansTimes(child, minimum, held, value, i);
      RepeatOf(node, minimum, false, value, i, i);
    case AnchorNode(kind) => assert kind in Held(value, i);
  }

  lemma {:induction false} NullableSpansAll(nodes: seq<Node>, held: set<Anchor>, value: string, i: nat)
    requires forall k | 0 <= k < |nodes| :: Regular(nodes[k]) && Nullable(nodes[k], held)
    requires held <= Held(value, i)
    ensures SpansAll(nodes, false, value, i, i)
    decreases nodes, 0
  {
    if nodes != [] {
      NullableSpansAll(nodes[..|nodes| - 1], held, value, i);
      NullableSpansEmpty(nodes[|nodes| - 1], held, value, i);
      SpansAllThrough(nodes, false, value, i, i, i);
    }
  }

  lemma {:induction false} NullableSpansTimes(node: Node, n: nat, held: set<Anchor>, value: string, i: nat)
    requires Regular(node) && (n == 0 || Nullable(node, held)) && held <= Held(value, i)
    ensures SpansTimes(node, n, false, value, i, i)
    decreases node, 2, n
  {
    if n > 0 {
      NullableSpansTimes(node, n - 1, held, value, i);
      NullableSpansEmpty(node, held, value, i);
      SpansTimesMore(node, n, false, value, i, i, i);
    }
  }

  lemma {:induction false} SpansForward(node: Node, strict: bool, value: string, i: nat, j: nat)
    requires Spans(node, strict, value, i, j)
    ensures i <= j
    decreases node, 1
  {
    match node
    case ConcatNode(children) => SpansAllForward(children, strict, value, i, j);
    case AlternateNode(children) =>
      var k := SpansAnyBranch(children, strict, value, i, j);
      SpansForward(children[k], strict, value, i, j);
    case RepeatNode(child, _, _, _) =>
      var n := RepeatCount(node, strict, value, i, j);
      SpansTimesForward(child, n, strict, value, i, j);
    case _ =>
  }

  lemma {:induction false} SpansAllForward(nodes: seq<Node>, strict: bool, value: string, i: nat, j: nat)
    requires SpansAll(nodes, strict, value, i, j)
    ensures i <= j
    decreases nodes, 0
  {
    if nodes != [] {
      var k := SpansAllMiddle(nodes, strict, value, i, j);
      SpansAllForward(nodes[..|nodes| - 1], strict, value, i, k);
      SpansForward(nodes[|nodes| - 1], strict, value, k, j);
    }
  }

  lemma {:induction false} SpansTimesForward(node: Node, n: nat, strict: bool, value: string, i: nat, j: nat)
    requires SpansTimes(node, n, strict, value, i, j)
    ensures i <= j
    decreases node, 2, n
  {
    if n > 0 {
      var k := SpansTimesLast(node, n, strict, value, i, j);
      SpansTimesForward(node, n - 1, strict, value, i, k);
      SpansForward(node, strict, value, k, j);
    }
  }

  lemma {:induction false} EmptySpanIsNullable(node: Node, value: string, i: nat)
    requires Regular(node) && Spans(node, false, value, i, i)
    ensures Nullable(node, Held(value, i))
    decreases node, 1
  {
    match node
    case ConcatNode(children) => EmptySpanAllNullable(children, value, i);
    case AlternateNode(children) =>
      var k := SpansAnyBranch(children, false, value, i, i);
      EmptySpanIsNullable(children[k], value, i);
    case RepeatNode(child, minimum, _, _) =>
      var n := RepeatCount(node, false, value, i, i);
      if minimum > 0 {
        var k := SpansTimesLast(child, n, false, value, i, i);
        SpansTimesForward(child, n - 1, false, value, i, k);
        SpansForward(child, false, value, k, i);
        EmptySpanIsNullable(child, value, i);
      }
    case _ =>
  }

  lemma {:induction false} EmptySpanAllNullable(nodes: seq<Node>, value: string, i: nat)
    requires forall k | 0 <= k < |nodes| :: Regular(nodes[k])
    requires SpansAll(nodes, false, value, i, i)
    ensures forall k | 0 <= k < |nodes| :: Nullable(nodes[k], Held(value, i))
    decreases nodes, 0
  {
    if nodes != [] {
      var k := SpansAllMiddle(nodes, false, value, i, i);
      SpansAllForward(nodes[..|nodes| - 1], false, value, i, k);
      SpansForward(nodes[|nodes| - 1], false, value, k, i);
      EmptySpanAllNullable(nodes[..|nodes| - 1], value, i);
      EmptySpanIsNullable(nodes[|nodes| - 1], value, i);
    }
  }

  // The empty matches of a compiled node, decided by its shape.
  lemma EmptySpanIff(node: Node, value: string, i: nat)
    requires Regular(node)
    ensures Spans(node, false, value, i, i) <==> Nullable(node, Held(value, i))
  {
    if Nullable(node, Held(value, i)) {
      NullableSpansEmpty(node, Held(value, i), value, i);
    }
    if Spans(node, false, value, i, i) {
      EmptySpanIsNullable(node, value, i);
    }
  }

  // ---------------------------------------------------------------------
  // When the compiled machine means what the pattern says
  // ---------------------------------------------------------------------

  ghost predicate Faithful(node: Node) {
    forall value: string, i: nat, j: nat :: Spans(node, true, value, i, j) <==> Spans(node, false, value, i, j)
  }

  // An alternation of faithful branches, anchored or not, is compiled
  // faithfully if and only if it has no dead branch or has a live branch that
  // matches the empty string without the help of an anchor.
  lemma {:induction false} AlternationFaithfulIff(branches: seq<Node>)
    requires Regular(AlternateNode(branches))
    requires forall k | 0 <= k < |branches| :: Faithful(branches[k])
    ensures Faithful(AlternateNode(branches)) <==> !HasDeadBranch(branches) || HasNullableBranch(branches, {})
  {
    if !HasDeadBranch(branches) || HasNullableBranch(branches, {}) {
      forall value: string, i: nat, j: nat
        ensures Spans(AlternateNode(branches), true, value, i, j) <==>
          Spans(AlternateNode(branches), false, value, i, j)
      {
        AlternationAgrees(branches, value, i, j);
      }
    } else {
      assert Held("aa", 1) == {};
      DeadAlternationMisses(branches, "aa", 1);
    }
  }

  // Where no live branch matches empty, a dead branch makes the readings differ.
  lemma {:induction false} DeadAlternationMisses(branches: seq<Node>, value: string, i: nat)
    requires Regular(AlternateNode(branches)) && HasDeadBranch(branches) && !HasNullableBranch(branches, Held(value, i))
    ensures Spans(AlternateNode(branches), true, value, i, i) && !Spans(AlternateNode(branches), false, value, i, i)
  {
    var k :| 0 <= k < |branches| && StateCount(branches[k]) <= 0;
    DeadSpansEmpty(branches[k], true, value, i, i);
    SpansAnyOf(branches, k, true, value, i, i);
    EmptySpanIff(AlternateNode(branches), value, i);
  }

  lemma {:induction false} AlternationAgrees(branches: seq<Node>, value: string, i: nat, j: nat)
    requires Regular(AlternateNode(branches))
    requires !HasDeadBranch(branches) || HasNullableBranch(branches, {})
    requires forall k | 0 <= k < |branches| ::
      Spans(branches[k], true, value, i, j) <==> Spans(branches[k], false, value, i, j)
    ensures SpansAny(branches, true, value, i, j) <==> SpansAny(branches, false, value, i, j)
  {
    if SpansAny(branches, true, value, i, j) {
      var k := SpansAnyBranch(branches, true, value, i, j);
      if StateCount(branches[k]) > 0 {
        SpansAnyOf(branches, k, false, value, i, j);
      } else {
        DeadSpansEmpty(branches[k], true, value, i, j);
        var h :| 0 <= h < |branches| && StateCount(branches[h]) > 0 && Nullable(branches[h], {});
        NullableSpansEmpty(branches[h], {}, value, i);
        SpansAnyOf(branches, h, false, value, i, j);
      }
    }
    if SpansAny(branches, false, value, i, j) {
      var k := SpansAnyBranch(branches, false, value, i, j);
      SpansAnyOf(branches, k, true, value, i, j);
    }
  }

  lemma {:induction false} ForgivingAgrees(node: Node, value: string, i: nat, j: nat)
    requires Regular(node) && Forgiving(node)
    ensures Spans(node, true, value, i, j) <==> Spans(node, false, value, i, j)
    decreases node, 1
  {
    match node
    case ConcatNode(children) =>
      ForgivingAllAgrees(children, true, value, i, j);
      ForgivingAllAgrees(children, false, value, i, j);
    case AlternateNode(children) =>
      forall k | 0 <= k < |children|
        ensures Spans(children[k], true, value, i, j) <==> Spans(children[k], false, value, i, j)
      {
        ForgivingAgrees(children[k], value, i, j);
      }
      AlternationAgrees(children, value, i, j);
    case RepeatNode(child, _, _, _) =>
      ForgivingRepeatAgrees(node, true, value, i, j);
      ForgivingRepeatAgrees(node, false, value, i, j);
    case _ =>
  }

  // Every part of the tree is compiled faithfully.
  ghost predicate FaithfulThroughout(node: Node)
    decreases node
  {
    && Faithful(node)
    && match node
       case ConcatNode(children) => forall k | 0 <= k < |children| :: FaithfulThroughout(children[k])
       case AlternateNode(children) => forall k | 0 <= k < |children| :: FaithfulThroughout(children[k])
       case RepeatNode(child, _, _, _) => FaithfulThroughout(child)
       case _ => true
  }

  // Forgiving is exactly that every part of the tree means what it says.
  lemma {:induction false} ForgivingIffFaithfulThroughout(node: Node)
    requires Regular(node)
    ensures Forgiving(node) <==> FaithfulThroughout(node)
    decreases node
  {
    if Forgiving(node) {
      forall value: string, i: nat, j: nat
        ensures Spans(node, true, value, i, j) <==> Spans(node, false, value, i, j)
      {
        ForgivingAgrees(node, value, i, j);
      }
    }
    match node
    case ConcatNode(children) =>
      forall k | 0 <= k < |children| ensures Forgiving(children[k]) <==> FaithfulThroughout(children[k]) {
        ForgivingIffFaithfulThroughout(children[k]);
      }
    case AlternateNode(children) =>
      forall k | 0 <= k < |children| ensures Forgiving(children[k]) <==> FaithfulThroughout(children[k]) {
        ForgivingIffFaithfulThroughout(children[k]);
      }
      if FaithfulThroughout(node) {
        AlternationFaithfulIff(children);
      }
    case RepeatNode(child, _, _, _) => ForgivingIffFaithfulThroughout(child);
    case _ =>
  }

  lemma {:induction false} ForgivingRepeatAgrees(node: Node, strict: bool, value: string, i: nat, j: nat)
    requires node.RepeatNode? && Regular(node.child) && Forgiving(node.child)
    ensures Spans(node, strict, value, i, j) ==> Spans(node, !strict, value, i, j)
    decreases node, 0
  {
    if Spans(node, strict, value, i, j) {
      var n := RepeatCount(node, strict, value, i, j);
      ForgivingTimesAgrees(node.child, n, strict, value, i, j);
      RepeatOf(node, n, !strict, value, i, j);
    }
  }

  lemma {:induction false} ForgivingAllAgrees(nodes: seq<Node>, strict: bool, value: string, i: nat, j: nat)
    requires forall k | 0 <= k < |nodes| :: Regular(nodes[k]) && Forgiving(nodes[k])
    ensures SpansAll(nodes, strict, value, i, j) ==> SpansAll(nodes, !strict, value, i, j)
    decreases nodes, 0
  {
    if nodes != [] && SpansAll(nodes, strict, value, i, j) {
      var k := SpansAllMiddle(nodes, strict, value, i, j);
      ForgivingAllAgrees(nodes[..|nodes| - 1], strict, value, i, k);
      ForgivingAgrees(nodes[|nodes| - 1], value, k, j);
      SpansAllThrough(nodes, !strict, value, i, k, j);
    }
  }

  lemma {:induction false} ForgivingTimesAgrees(node: Node, n: nat, strict: bool, value: string, i: nat, j: nat)
    requires Regular(node) && Forgiving(node) && SpansTimes(node, n, strict, value, i, j)
    ensures SpansTimes(node, n, !strict, value, i, j)
    decreases node, 2, n
  {
    if n > 0 {
      var k := SpansTimesLast(node, n, strict, value, i, j);
      ForgivingTimesAgrees(node, n - 1, strict, value, i, k);
      ForgivingAgrees(node, value, k, j);
      SpansTimesMore(node, n, !strict, value, i, k, j);
    }
  }

  // Main result: for a forgiving pattern the search decides the documented meaning.
  lemma {:induction false} SearchDecidesDocumentedMeaning(node: Node, value: string)
    requires Regular(node) && Forgiving(node)
    ensures PatternMachineDecides(node, value, true)
  {
    forall value: string, i: nat, j: nat
      ensures Spans(node, true, value, i, j) <==> Spans(node, false, value, i, j)
    {
      ForgivingAgrees(node, value, i, j);
    }
    FaithfulSearch(node, value);
  }

  ghost predicate PatternMachineDecides(node: Node, value: string, strict: bool)
    requires Regular(node)
  {
    AcceptsFrom(Machine(node), value, MachineStart(node), 0) <==> Matches(node, strict, value)
  }

  // No anchor of the given kind occurs in the node.
  predicate Lacks(node: Node, kind: Anchor)
    decreases node
  {
    match node
    case ConcatNode(children) => forall k | 0 <= k < |children| :: Lacks(children[k], kind)
    case AlternateNode(children) => forall k | 0 <= k < |children| :: Lacks(children[k], kind)
    case RepeatNode(child, _, _, _) => Lacks(child, kind)
    case AnchorNode(other) => other != kind
    case _ => true
  }

  lemma {:induction false} LackedIsNotNeeded(node: Node, held: set<Anchor>, kind: Anchor)
    requires Lacks(node, kind) && Nullable(node, held)
    ensures Nullable(node, held - {kind})
    decreases node
  {
    match node
    case ConcatNode(children) =>
      forall k | 0 <= k < |children| ensures Nullable(children[k], held - {kind}) {
        LackedIsNotNeeded(children[k], held, kind);
      }
    case AlternateNode(children) =>
      var k :| 0 <= k < |children| && StateCount(children[k]) > 0 && Nullable(children[k], held);
      LackedIsNotNeeded(children[k], held, kind);
    case RepeatNode(child, minimum, _, _) =>
      if minimum > 0 { LackedIsNotNeeded(child, held, kind); }
    case _ =>
  }

  // Some live branch matches empty at the start of every value, or at the end.
  predicate HasFreeBranch(branches: seq<Node>) {
    HasNullableBranch(branches, {Begin}) || HasNullableBranch(branches, {End})
  }

  // Searching an alternation of faithful branches, anchored or not, is right for
  // every value if and only if it has no dead branch or what is compiled is found
  // in every value.
  lemma {:induction false} AlternationSearchRightIff(branches: seq<Node>)
    requires Regular(AlternateNode(branches))
    requires forall k | 0 <= k < |branches| :: Faithful(branches[k])
    ensures (forall value: string :: PatternMachineDecides(AlternateNode(branches), value, true))
      <==> !HasDeadBranch(branches) || forall value: string :: Matches(AlternateNode(branches), false, value)
  {
    hide Matches, PatternMachineDecides, Faithful;
    var node := AlternateNode(branches);
    if HasDeadBranch(branches) {
      forall value: string
        ensures PatternMachineDecides(node, value, true) <==> Matches(node, false, value)
      {
        DeadBranchMatches(branches, value);
      }
    } else {
      AlternationFaithfulIff(branches);
      forall value: string ensures PatternMachineDecides(node, value, true) {
        FaithfulSearch(node, value);
      }
    }
  }

  // A dead branch should be found in every value.
  lemma DeadBranchMatches(branches: seq<Node>, value: string)
    requires Regular(AlternateNode(branches)) && HasDeadBranch(branches)
    ensures Matches(AlternateNode(branches), true, value)
    ensures PatternMachineDecides(AlternateNode(branches), value, true) <==>
      Matches(AlternateNode(branches), false, value)
  {
    var k :| 0 <= k < |branches| && StateCount(branches[k]) <= 0;
    DeadSpansEmpty(branches[k], true, value, 0, 0);
    SpansAnyOf(branches, k, true, value, 0, 0);
    SpanMatches(AlternateNode(branches), true, value, 0, 0);
    SearchDecidesPattern(AlternateNode(branches), value);
  }

  // The shapes that decide it: a live branch that needs one anchor at most to
  // match empty suffices, and one that matches the empty value is necessary.
  lemma {:induction false} AlternationSearchRightByShape(branches: seq<Node>)
    requires Regular(AlternateNode(branches))
    requires forall k | 0 <= k < |branches| :: Faithful(branches[k])
    ensures !HasDeadBranch(branches) || HasFreeBranch(branches) ==>
      forall value: string :: PatternMachineDecides(AlternateNode(branches), value, true)
    ensures HasDeadBranch(branches) && !HasNullableBranch(branches, {Begin, End}) ==>
      !PatternMachineDecides(AlternateNode(branches), "", true)
  {
    hide Matches, PatternMachineDecides, Faithful;
    AlternationSearchRightIff(branches);
    if HasFreeBranch(branches) {
      forall value: string ensures Matches(AlternateNode(branches), false, value) {
        FreeBranchMatches(branches, value);
      }
    }
    if HasDeadBranch(branches) && !HasNullableBranch(branches, {Begin, End}) {
      DeadBranchMissesEmpty(branches);
    }
  }

  lemma FreeBranchMatches(branches: seq<Node>, value: string)
    requires Regular(AlternateNode(branches)) && HasFreeBranch(branches)
    ensures Matches(AlternateNode(branches), false, value)
  {
    var kind := if HasNullableBranch(branches, {Begin}) then Begin else End;
    var h :| 0 <= h < |branches| && StateCount(branches[h]) > 0 && Nullable(branches[h], {kind});
    var i := if kind.Begin? then 0 else |value|;
    assert {kind} <= Held(value, i);
    NullableSpansEmpty(branches[h], {kind}, value, i);
    SpansAnyOf(branches, h, false, value, i, i);
    SpanMatches(AlternateNode(branches), false, value, i, i);
  }

  // Where no branch is anchored at both ends, the two shapes coincide.
  lemma {:induction false} OneSidedSearchRightIff(branches: seq<Node>)
    requires Regular(AlternateNode(branches))
    requires forall k | 0 <= k < |branches| ::
      Faithful(branches[k]) && (Lacks(branches[k], Begin) || Lacks(branches[k], End))
    ensures (forall value: string :: PatternMachineDecides(AlternateNode(branches), value, true))
      <==> !HasDeadBranch(branches) || HasNullableBranch(branches, {Begin, End})
  {
    hide PatternMachineDecides, Faithful;
    AlternationSearchRightByShape(branches);
    if HasNullableBranch(branches, {Begin, End}) {
      var h :| 0 <= h < |branches| && StateCount(branches[h]) > 0 && Nullable(branches[h], {Begin, End});
      var kind := if Lacks(branches[h], Begin) then Begin else End;
      LackedIsNotNeeded(branches[h], {Begin, End}, kind);
      assert {Begin, End} - {Begin} == {End} && {Begin, End} - {End} == {Begin};
    }
  }

  // Without one the search misses the match of a dead branch in the empty value.
  lemma DeadBranchMissesEmpty(branches: seq<Node>)
    requires Regular(AlternateNode(branches)) && HasDeadBranch(branches) && !HasNullableBranch(branches, {Begin, End})
    ensures !PatternMachineDecides(AlternateNode(branches), "", true)
  {
    var node := AlternateNode(branches);
    assert Held("", 0) == {Begin, End};
    DeadAlternationMisses(branches, "", 0);
    SpanMatches(node, true, "", 0, 0);
    SearchDecidesPattern(node, "");
    if Matches(node, false, "") {
      var i, j := MatchWitness(node, false, "");
      StaysAtZero(node, i, j);
    }
  }

  lemma StaysAtZero(node: Node, i: nat, j: nat)
    requires Regular(node) && i <= |""| && Spans(node, false, "", i, j)
    ensures i == j == 0
  {
    LowerKeepsMeaning(node, "", i, j);
    MovesStayInside(Lower(node), "", i, j);
  }

  lemma FaithfulSearch(node: Node, value: string)
    requires Regular(node) && Faithful(node)
    ensures PatternMachineDecides(node, value, true)
  {
    SearchDecidesPattern(node, value);
    if Matches(node, true, value) {
      var i, j := MatchWitness(node, true, value);
      SpanMatches(node, false, value, i, j);
    }
    if Matches(node, false, value) {
      var i, j := MatchWitness(node, false, value);
      SpanMatches(node, true, value, i, j);
    }
  }
}
