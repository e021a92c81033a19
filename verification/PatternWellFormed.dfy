/** What the parser guarantees of every tree that it returns. */
module PatternWellFormed {
  import opened PatternSyntax
  import opened PatternParser
  import opened PatternGrammar

  // Groups of at least two, flat repeats of anchor-free bodies, bounds in order.
  predicate Tree(node: Node)
    decreases node
  {
    match node
    case ConcatNode(children) => |children| >= 2 && forall k | 0 <= k < |children| :: Tree(children[k])
    case AlternateNode(children) => |children| >= 2 && forall k | 0 <= k < |children| :: Tree(children[k])
    case RepeatNode(child, minimum, maximum, copyForUnbounded) =>
      && Tree(child) && AnchorFree(child) && RepeatFree(child)
      && minimum <= 1000
      && (maximum.Some? ==> minimum <= maximum.value <= 1000 && !copyForUnbounded)
      && (maximum.None? && !copyForUnbounded ==> minimum <= 1)
    case _ => true
  }

  // No part of the tree is a repeat.
  predicate RepeatFree(node: Node)
    decreases node
  {
    match node
    case ConcatNode(children) => forall k | 0 <= k < |children| :: RepeatFree(children[k])
    case AlternateNode(children) => forall k | 0 <= k < |children| :: RepeatFree(children[k])
    case RepeatNode(_, _, _, _) => false
    case _ => true
  }

  lemma {:induction false} RepeatFreeIff(node: Node)
    ensures RepeatFree(node) <==> !ContainsRepeat(node)
    decreases node
  {
    match node
    case ConcatNode(children) =>
      forall k | 0 <= k < |children| ensures RepeatFree(children[k]) <==> !ContainsRepeat(children[k]) {
        RepeatFreeIff(children[k]);
      }
    case AlternateNode(children) =>
      forall k | 0 <= k < |children| ensures RepeatFree(children[k]) <==> !ContainsRepeat(children[k]) {
        RepeatFreeIff(children[k]);
      }
    case _ =>
  }

  // `^` is the first item and `$` the last, if they occur.
  predicate AnchorsAtEnds(items: seq<Node>) {
    forall k | 0 <= k < |items| ::
      && (items[k] == AnchorNode(Begin) ==> k == 0)
      && (items[k] == AnchorNode(End) ==> k == |items| - 1)
  }

  predicate AnchorOrFree(node: Node) {
    node.AnchorNode? || AnchorFree(node)
  }

  // A root alternative: anchors first and last only.
  predicate RootAlternative(node: Node) {
    || AnchorOrFree(node)
    || (node.ConcatNode? && AnchorsAtEnds(node.children)
        && forall k | 0 <= k < |node.children| :: AnchorOrFree(node.children[k]))
  }

  predicate WellFormed(node: Node) {
    Tree(node)
    && (RootAlternative(node)
        || (node.AlternateNode? && forall k | 0 <= k < |node.children| :: RootAlternative(node.children[k])))
  }

  predicate Placed(root: bool, node: Node) {
    if root then RootAlternative(node) else AnchorFree(node)
  }

  lemma {:induction false} AtomShape(p: string, i: nat, j: nat, node: Node)
    requires AtomText(p, i, j, node)
    ensures Tree(node) && AnchorOrFree(node)
    decreases if j > i then j - i else 0, 0
  {
    if p[i] == '(' {
      AlternationShape(p, false, i + 1, j - 1, node);
    }
  }

  lemma {:induction false} QuantifiedShape(p: string, i: nat, j: nat, node: Node)
    requires QuantifiedText(p, i, j, node)
    ensures Tree(node) && AnchorOrFree(node)
    decreases if j > i then j - i else 0, 1
  {
    hide AtomText;
    if AtomText(p, i, j, node) {
      AtomShape(p, i, j, node);
    } else {
      var k := QuantifiedSplit(p, i, j, node);
      AtomShape(p, i, k, node.child);
      RepeatFreeIff(node.child);
    }
  }

  lemma {:induction false} ItemsShape(p: string, i: nat, j: nat, items: seq<Node>)
    requires ItemsText(p, i, j, items)
    ensures forall k | 0 <= k < |items| :: Tree(items[k]) && AnchorOrFree(items[k])
    decreases if j > i then j - i else 0, 2, |items|
  {
    hide QuantifiedText, Tree, AnchorOrFree;
    if items != [] {
      var k := ItemsSplit(p, i, j, items);
      QuantifiedShape(p, i, k, items[0]);
      ItemsShape(p, k, j, items[1..]);
      assert forall h | 1 <= h < |items| :: items[h] == items[1..][h - 1];
    }
  }

  lemma {:induction false} AlternativeShape(p: string, root: bool, i: nat, j: nat, node: Node)
    requires AlternativeText(p, root, i, j, node)
    ensures Tree(node) && Placed(root, node)
    decreases if j > i then j - i else 0, 3
  {
    hide ItemsText;
    if AnchorsPlaced(root, [node]) && ItemsText(p, i, j, [node]) {
      ItemsShape(p, i, j, [node]);
      assert Tree([node][0]) && AnchorOrFree([node][0]);
    } else {
      ItemsShape(p, i, j, node.children);
    }
  }

  lemma {:induction false} BranchesShape(p: string, root: bool, i: nat, j: nat, branches: seq<Node>)
    requires BranchesText(p, root, i, j, branches)
    ensures forall k | 0 <= k < |branches| :: Tree(branches[k]) && Placed(root, branches[k])
    decreases if j > i then j - i else 0, 4
  {
    hide AlternativeText, Tree, Placed;
    if |branches| == 1 {
      AlternativeShape(p, root, i, j, branches[0]);
    } else {
      var k := BranchesSplit(p, root, i, j, branches);
      AlternativeShape(p, root, i, k, branches[0]);
      BranchesShape(p, root, k + 1, j, branches[1..]);
      assert forall h | 1 <= h < |branches| :: branches[h] == branches[1..][h - 1];
    }
  }

  lemma {:induction false} AlternationShape(p: string, root: bool, i: nat, j: nat, node: Node)
    requires AlternationText(p, root, i, j, node)
    ensures Tree(node) && if root then WellFormed(node) else AnchorFree(node)
    decreases if j > i then j - i else 0, 5
  {
    hide BranchesText;
    if BranchesText(p, root, i, j, [node]) {
      BranchesShape(p, root, i, j, [node]);
      assert Tree([node][0]) && Placed(root, [node][0]);
    } else {
      BranchesShape(p, root, i, j, node.children);
    }
  }

  // ---------------------------------------------------------------------
  // A body without repeats and anchors consumes at least one character
  // ---------------------------------------------------------------------

  lemma {:induction false} BodyHasStates(node: Node)
    requires Tree(node) && !ContainsRepeat(node)
    ensures StateCount(node) > 0 && Regular(node)
    decreases node, 1
  {
    match node
    case ConcatNode(children) =>
      BodiesHaveStates(children);
    case AlternateNode(children) =>
      BodiesHaveStates(children);
    case _ =>
  }

  lemma {:induction false} BodiesHaveStates(nodes: seq<Node>)
    requires forall k | 0 <= k < |nodes| :: Tree(nodes[k]) && !ContainsRepeat(nodes[k])
    ensures StateCountSum(nodes) >= |nodes| && forall k | 0 <= k < |nodes| :: Regular(nodes[k])
    decreases nodes, 0
  {
    if nodes != [] {
      BodiesHaveStates(nodes[..|nodes| - 1]);
      BodyHasStates(nodes[|nodes| - 1]);
      assert forall k | 0 <= k < |nodes| - 1 :: nodes[..|nodes| - 1][k] == nodes[k];
    }
  }

  lemma {:induction false} TreeIsRegular(node: Node)
    requires Tree(node)
    ensures Regular(node)
    decreases node
  {
    match node
    case ConcatNode(children) =>
      forall k | 0 <= k < |children| ensures Regular(children[k]) { TreeIsRegular(children[k]); }
    case AlternateNode(children) =>
      forall k | 0 <= k < |children| ensures Regular(children[k]) { TreeIsRegular(children[k]); }
    case RepeatNode(child, _, _, _) =>
      RepeatFreeIff(child);
      BodyHasStates(child);
    case _ =>
  }

  lemma {:induction false} BodyConsumes(node: Node, strict: bool, value: string, i: nat, j: nat)
    requires Tree(node) && AnchorFree(node) && !ContainsRepeat(node) && Spans(node, strict, value, i, j)
    ensures i < j
    decreases node, 1
  {
    match node
    case ConcatNode(children) => BodiesConsume(children, strict, value, i, j);
    case AlternateNode(children) => SomeBodyConsumes(children, strict, value, i, j);
    case _ =>
  }

  lemma {:induction false} BodiesConsume(nodes: seq<Node>, strict: bool, value: string, i: nat, j: nat)
    requires forall k | 0 <= k < |nodes| :: Tree(nodes[k]) && AnchorFree(nodes[k]) && !ContainsRepeat(nodes[k])
    requires SpansAll(nodes, strict, value, i, j)
    ensures i + |nodes| <= j
    decreases nodes, 0
  {
    if nodes != [] {
      var k := SpansAllMiddle(nodes, strict, value, i, j);
      BodiesConsume(nodes[..|nodes| - 1], strict, value, i, k);
      BodyConsumes(nodes[|nodes| - 1], strict, value, k, j);
    }
  }

  lemma {:induction false} SomeBodyConsumes(nodes: seq<Node>, strict: bool, value: string, i: nat, j: nat)
    requires forall k | 0 <= k < |nodes| :: Tree(nodes[k]) && AnchorFree(nodes[k]) && !ContainsRepeat(nodes[k])
    requires SpansAny(nodes, strict, value, i, j)
    ensures i < j
    decreases nodes, 0
  {
    if Spans(nodes[0], strict, value, i, j) {
      BodyConsumes(nodes[0], strict, value, i, j);
    } else {
      SomeBodyConsumes(nodes[1..], strict, value, i, j);
    }
  }

  // Every tree that the parser returns is well formed, fit for the compiler,
  // and repeats only bodies that consume a character.
  lemma {:induction false} ParsedIsWellFormed(p: string)
    requires Parse(p).Ok?
    ensures WellFormed(Parse(p).value) && Regular(Parse(p).value)
  {
    var node := Parse(p).value;
    ParseIffGrammar(p, node);
    AlternationShape(p, true, 0, |p|, node);
    TreeIsRegular(node);
  }
}
