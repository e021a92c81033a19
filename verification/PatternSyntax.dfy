/** Abstract syntax of makotoPattern (src/makoto/pattern.py) and what a pattern means. */
module PatternSyntax {
  import opened Wrappers

  datatype Anchor = Begin | End

  datatype Node =
    | LiteralNode(value: char)
    | DotNode
    | AnchorNode(kind: Anchor)
    | ClassNode(values: set<char>, ranges: seq<(int, int)>, negated: bool)
    | ConcatNode(children: seq<Node>)
    | AlternateNode(children: seq<Node>)
    | RepeatNode(child: Node, minimum: nat, maximum: Option<nat>, copyForUnbounded: bool)

  predicate IsAtom(node: Node) {
    node.LiteralNode? || node.DotNode? || node.AnchorNode? || node.ClassNode?
  }

  // The number of NFA states that the node compiles to, computed without compiling.
  function StateCount(node: Node): int
    decreases node
  {
    match node
    case ConcatNode(children) => StateCountSum(children)
    case AlternateNode(children) =>
      StateCountSum(children) + |children| - 1
    case RepeatNode(child, minimum, maximum, copyForUnbounded) =>
      var childCount := StateCount(child);
      if maximum == Some(minimum) then minimum * childCount
      else if maximum.None? then
        if !copyForUnbounded then childCount + 1 else (minimum + 1) * childCount + 1
      else minimum * childCount + (maximum.value - minimum) * (childCount + 1)
    case _ => 1
  }

  function StateCountSum(nodes: seq<Node>): int
    decreases nodes
  {
    if nodes == [] then 0 else StateCountSum(nodes[..|nodes| - 1]) + StateCount(nodes[|nodes| - 1])
  }

  predicate ContainsRepeat(node: Node)
    decreases node
  {
    match node
    case RepeatNode(_, _, _, _) => true
    case ConcatNode(children) => exists k | 0 <= k < |children| :: ContainsRepeat(children[k])
    case AlternateNode(children) => exists k | 0 <= k < |children| :: ContainsRepeat(children[k])
    case _ => false
  }

  predicate AnchorFree(node: Node)
    decreases node
  {
    match node
    case ConcatNode(children) => forall k | 0 <= k < |children| :: AnchorFree(children[k])
    case AlternateNode(children) => forall k | 0 <= k < |children| :: AnchorFree(children[k])
    case RepeatNode(child, _, _, _) => AnchorFree(child)
    case AnchorNode(_) => false
    case _ => true
  }

  // What the compiler needs of a tree; every tree that the parser returns has it.
  predicate Regular(node: Node)
    decreases node
  {
    match node
    case ConcatNode(children) => forall k | 0 <= k < |children| :: Regular(children[k])
    case AlternateNode(children) => |children| >= 2 && forall k | 0 <= k < |children| :: Regular(children[k])
    case RepeatNode(child, minimum, maximum, copyForUnbounded) =>
      && Regular(child)
      && (maximum.Some? ==> minimum <= maximum.value)
      && (maximum.None? && !copyForUnbounded ==> minimum <= 1 && StateCount(child) > 0)
    case _ => true
  }

  // ---------------------------------------------------------------------
  // Meaning: node matches value[i..j]
  // ---------------------------------------------------------------------

  predicate CharMatches(node: Node, c: char)
    requires IsAtom(node) && !node.AnchorNode?
  {
    match node
    case LiteralNode(value) => c == value
    case DotNode => c != '\n' && c != '\r'
    case ClassNode(values, ranges, negated) =>
      var member := c in values || exists k | 0 <= k < |ranges| :: ranges[k].0 <= c as int <= ranges[k].1;
      if negated then !member else member
  }

  predicate AtomSpans(node: Node, value: string, i: nat, j: nat)
    requires IsAtom(node)
  {
    if node.AnchorNode? then i == j && i == (if node.kind.Begin? then 0 else |value|)
    else j == i + 1 && j <= |value| && CharMatches(node, value[i])
  }

  // The denotation of a pattern.  `strict` is the reading of the source's
  // documentation; without it an alternation branch that compiles to no
  // state is left out, which is what the compiled machine does.
  ghost predicate Spans(node: Node, strict: bool, value: string, i: nat, j: nat)
    decreases node, 1
  {
    match node
    case ConcatNode(children) => SpansAll(children, strict, value, i, j)
    case AlternateNode(children) => SpansAny(children, strict, value, i, j)
    case RepeatNode(child, minimum, maximum, _) =>
      exists n: nat :: minimum <= n && (maximum.Some? ==> n <= maximum.value)
        && SpansTimes(child, n, strict, value, i, j)
    case _ => AtomSpans(node, value, i, j)
  }

  ghost predicate SpansAll(nodes: seq<Node>, strict: bool, value: string, i: nat, j: nat)
    decreases nodes, 0
  {
    if nodes == [] then i == j
    else
      var front, last := nodes[..|nodes| - 1], nodes[|nodes| - 1];
      exists k: nat :: SpansAll(front, strict, value, i, k) && Spans(last, strict, value, k, j)
  }

  ghost predicate SpansAny(nodes: seq<Node>, strict: bool, value: string, i: nat, j: nat)
    decreases nodes, 0
  {
    nodes != [] &&
    (((strict || StateCount(nodes[0]) > 0) && Spans(nodes[0], strict, value, i, j))
     || SpansAny(nodes[1..], strict, value, i, j))
  }

  ghost predicate SpansTimes(node: Node, n: nat, strict: bool, value: string, i: nat, j: nat)
    decreases node, 2, n
  {
    if n == 0 then i == j
    else exists k: nat :: SpansTimes(node, n - 1, strict, value, i, k) && Spans(node, strict, value, k, j)
  }

  // Elimination rules for the existentials in Spans.
  lemma SpansAllMiddle(nodes: seq<Node>, strict: bool, value: string, i: nat, j: nat) returns (k: nat)
    requires nodes != [] && SpansAll(nodes, strict, value, i, j)
    ensures SpansAll(nodes[..|nodes| - 1], strict, value, i, k) && Spans(nodes[|nodes| - 1], strict, value, k, j)
  {
    var front, last := nodes[..|nodes| - 1], nodes[|nodes| - 1];
    k :| SpansAll(front, strict, value, i, k) && Spans(last, strict, value, k, j);
  }

  lemma SpansTimesLast(node: Node, n: nat, strict: bool, value: string, i: nat, j: nat) returns (k: nat)
    requires n > 0 && SpansTimes(node, n, strict, value, i, j)
    ensures SpansTimes(node, n - 1, strict, value, i, k) && Spans(node, strict, value, k, j)
  {
    k :| SpansTimes(node, n - 1, strict, value, i, k) && Spans(node, strict, value, k, j);
  }

  // Introduction rules.
  lemma SpansAllThrough(nodes: seq<Node>, strict: bool, value: string, i: nat, k: nat, j: nat)
    requires nodes != [] && SpansAll(nodes[..|nodes| - 1], strict, value, i, k)
      && Spans(nodes[|nodes| - 1], strict, value, k, j)
    ensures SpansAll(nodes, strict, value, i, j)
  {
  }

  lemma SpansTimesMore(node: Node, n: nat, strict: bool, value: string, i: nat, k: nat, j: nat)
    requires n > 0 && SpansTimes(node, n - 1, strict, value, i, k) && Spans(node, strict, value, k, j)
    ensures SpansTimes(node, n, strict, value, i, j)
  {
  }

  // The repetition counts that a repeat node allows.
  predicate Allows(node: Node, n: nat)
    requires node.RepeatNode?
  {
    node.minimum <= n && (node.maximum.Some? ==> n <= node.maximum.value)
  }

  lemma RepeatCount(node: Node, strict: bool, value: string, i: nat, j: nat) returns (n: nat)
    requires node.RepeatNode? && Spans(node, strict, value, i, j)
    ensures Allows(node, n) && SpansTimes(node.child, n, strict, value, i, j)
  {
    n :| Allows(node, n) && SpansTimes(node.child, n, strict, value, i, j);
  }

  lemma RepeatOf(node: Node, n: nat, strict: bool, value: string, i: nat, j: nat)
    requires node.RepeatNode? && Allows(node, n) && SpansTimes(node.child, n, strict, value, i, j)
    ensures Spans(node, strict, value, i, j)
  {
  }

  // `search` looks for a match anywhere in the value.
  ghost predicate Matches(node: Node, strict: bool, value: string) {
    exists i: nat, j: nat :: i <= |value| && Spans(node, strict, value, i, j)
  }
}
