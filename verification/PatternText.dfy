/** What some patterns find, said of the characters of the value alone: texts with
    and without anchors, the dot, classes, escapes and counted characters. */
module PatternText {
  import opened Wrappers
  import opened Decimal
  import opened PatternSyntax
  import opened PatternParser
  import opened PatternClass
  import opened PatternGrammar
  import opened PatternSearch

  // ---------------------------------------------------------------------
  // Texts
  // ---------------------------------------------------------------------

  predicate IsPlainChar(c: char) {
    c !in ".^$*+?{}[]()|\\" && !(c as int <= 0x1F || 0x7F <= c as int <= 0x9F)
  }

  // No metacharacter and no control.
  predicate IsPlain(text: string) {
    forall k | 0 <= k < |text| :: IsPlainChar(text[k])
  }

  // The text, perhaps behind `^` and in front of `$`.
  function TextPattern(text: string, begin: bool, end: bool): string {
    (if begin then "^" else "") + text + (if end then "$" else "")
  }

  // The text stands in the value, at its start and its end if so anchored.
  predicate Occurs(text: string, begin: bool, end: bool, value: string) {
    exists k: nat | k <= |value| :: OccursAt(text, begin, end, value, k)
  }

  predicate OccursAt(text: string, begin: bool, end: bool, value: string, k: nat) {
    && k + |text| <= |value| && value[k..k + |text|] == text
    && (begin ==> k == 0) && (end ==> k + |text| == |value|)
  }

  function Literals(text: string): (r: seq<Node>)
    ensures |r| == |text|
  {
    seq(|text|, k requires 0 <= k < |text| => LiteralNode(text[k]))
  }

  function BeginItems(begin: bool): seq<Node> {
    if begin then [AnchorNode(Begin)] else []
  }

  function EndItems(end: bool): seq<Node> {
    if end then [AnchorNode(End)] else []
  }

  function TextItems(text: string, begin: bool, end: bool): seq<Node> {
    BeginItems(begin) + (Literals(text) + EndItems(end))
  }

  lemma MetaIsListed(c: char)
    requires c in META
    ensures c in ".^$*+?{}[]()|\\"
  {
    var meta := ".^$*+?{}[]()|\\";
    assert meta[0] == '.' && meta[1] == '^' && meta[2] == '$' && meta[3] == '*' && meta[4] == '+' && meta[5] == '?';
    assert meta[6] == '{' && meta[7] == '}' && meta[8] == '[' && meta[9] == ']' && meta[10] == '(' && meta[11] == ')';
    assert meta[12] == '|' && meta[13] == '\\';
  }

  lemma PlainIsNoMeta(c: char)
    requires IsPlainChar(c)
    ensures c !in META && !IsControl(c)
  {
    if c in META {
      MetaIsListed(c);
    }
  }

  lemma PlainAtom(p: string, i: nat)
    requires i < |p| && IsPlainChar(p[i])
    ensures AtomText(p, i, i + 1, LiteralNode(p[i])) && QuantifiedText(p, i, i + 1, LiteralNode(p[i]))
  {
    hide ClassText, IsPlainChar;
    PlainIsNoMeta(p[i]);
  }

  lemma {:induction false} LiteralsSpelled(p: string, i: nat, text: string, j: nat, rest: seq<Node>)
    requires i + |text| <= |p| && p[i..i + |text|] == text && IsPlain(text) && ItemsText(p, i + |text|, j, rest)
    ensures ItemsText(p, i, j, Literals(text) + rest)
    decreases |text|
  {
    hide QuantifiedText, ItemsText;
    if text == "" {
      assert Literals(text) + rest == rest;
    } else {
      assert p[i] == p[i..i + |text|][0] == text[0];
      assert p[i + 1..i + 1 + |text[1..]|] == text[1..];
      LiteralsSpelled(p, i + 1, text[1..], j, rest);
      PlainAtom(p, i);
      ItemsInside(p, i + 1, j, Literals(text[1..]) + rest);
      ItemsCons(p, i, i + 1, j, LiteralNode(text[0]), Literals(text[1..]) + rest);
      assert Literals(text) + rest == [LiteralNode(text[0])] + (Literals(text[1..]) + rest);
    }
  }

  lemma AnchorAtom(p: string, i: nat, kind: Anchor)
    requires i < |p| && p[i] == if kind.Begin? then '^' else '$'
    ensures QuantifiedText(p, i, i + 1, AnchorNode(kind))
  {
    hide ClassText;
    assert AtomText(p, i, i + 1, AnchorNode(kind));
  }

  lemma NothingSpelled(p: string)
    ensures ItemsText(p, |p|, |p|, [])
  {
  }

  lemma TextItemsSpelled(text: string, begin: bool, end: bool)
    requires IsPlain(text)
    ensures var p := TextPattern(text, begin, end);
      ItemsText(p, 0, |p|, TextItems(text, begin, end))
  {
    hide ItemsText, QuantifiedText;
    var p, i := TextPattern(text, begin, end), if begin then 1 else 0;
    var j := i + |text|;
    NothingSpelled(p);
    if end {
      AnchorAtom(p, j, End);
      ItemsCons(p, j, j + 1, |p|, AnchorNode(End), []);
      assert [AnchorNode(End)] + [] == EndItems(end);
    }
    assert p[i..j] == text;
    LiteralsSpelled(p, i, text, |p|, EndItems(end));
    if begin {
      AnchorAtom(p, 0, Begin);
      ItemsInside(p, 1, |p|, Literals(text) + EndItems(end));
      ItemsCons(p, 0, 1, |p|, AnchorNode(Begin), Literals(text) + EndItems(end));
    } else {
      assert TextItems(text, begin, end) == Literals(text) + EndItems(end);
    }
  }

  // A sequence of items that spells the pattern is its tree.
  lemma ItemsAreParsed(p: string, items: seq<Node>)
    requires p != "" && items != [] && ItemsText(p, 0, |p|, items) && AnchorsPlaced(true, items)
    ensures Parse(p) == Ok(Sequence(items))
  {
    hide ItemsText, Parse;
    var node := Sequence(items);
    if |items| == 1 {
      assert items == [node];
    }
    assert AlternativeText(p, true, 0, |p|, node);
    assert BranchesText(p, true, 0, |p|, [node]);
    ParseIffGrammar(p, node);
  }

  // ---------------------------------------------------------------------
  // What items span
  // ---------------------------------------------------------------------

  lemma SpansAllSplit(items: seq<Node>, last: Node, strict: bool, value: string, i: nat, j: nat)
    ensures SpansAll(items + [last], strict, value, i, j) <==>
      exists k: nat :: SpansAll(items, strict, value, i, k) && Spans(last, strict, value, k, j)
  {
    hide Spans;
    var all := items + [last];
    assert all != [] && all[..|all| - 1] == items && all[|all| - 1] == last;
    if SpansAll(all, strict, value, i, j) {
      var k := SpansAllMiddle(all, strict, value, i, j);
      assert SpansAll(items, strict, value, i, k) && Spans(last, strict, value, k, j);
    }
    forall k: nat | SpansAll(items, strict, value, i, k) && Spans(last, strict, value, k, j)
      ensures SpansAll(items + [last], strict, value, i, j)
    {
      SpansAllThrough(all, strict, value, i, k, j);
    }
  }

  lemma SpansSequence(items: seq<Node>, strict: bool, value: string, i: nat, j: nat)
    requires items != []
    ensures Spans(Sequence(items), strict, value, i, j) <==> SpansAll(items, strict, value, i, j)
  {
    if |items| == 1 {
      assert items == [] + [items[0]];
      SpansAllSplit([], items[0], strict, value, i, j);
      assert SpansAll([], strict, value, i, i);
    }
  }

  lemma LiteralSpan(c: char, strict: bool, value: string, i: nat, j: nat)
    ensures Spans(LiteralNode(c), strict, value, i, j) <==> j == i + 1 <= |value| && value[i] == c
  {
  }

  lemma AnchorSpan(kind: Anchor, strict: bool, value: string, i: nat, j: nat)
    ensures Spans(AnchorNode(kind), strict, value, i, j) <==> i == j && i == if kind == Begin then 0 else |value|
  {
  }

  lemma {:induction false} LiteralsSpan(begin: bool, text: string, strict: bool, value: string, i: nat, j: nat)
    requires i <= |value|
    ensures SpansAll(BeginItems(begin) + Literals(text), strict, value, i, j) <==>
      (begin ==> i == 0) && j == i + |text| <= |value| && value[i..j] == text
    decreases |text|
  {
    hide Spans, SpansAll;
    var items := BeginItems(begin) + Literals(text);
    if text == "" {
      NoItemsSpan(strict, value, i, j);
      if begin {
        assert items == [] + [AnchorNode(Begin)];
        SpansAllSplit([], AnchorNode(Begin), strict, value, i, j);
        AnchorSpan(Begin, strict, value, i, j);
        NoItemsSpan(strict, value, i, i);
        forall k: nat | SpansAll([], strict, value, i, k) ensures k == i { NoItemsSpan(strict, value, i, k); }
      } else {
        assert items == [];
      }
    } else {
      var front, c := text[..|text| - 1], text[|text| - 1];
      var firstItems := BeginItems(begin) + Literals(front);
      assert items == firstItems + [LiteralNode(c)];
      SpansAllSplit(firstItems, LiteralNode(c), strict, value, i, j);
      forall k: nat
        ensures SpansAll(firstItems, strict, value, i, k) <==>
          (begin ==> i == 0) && k == i + |front| <= |value| && value[i..k] == front
        ensures Spans(LiteralNode(c), strict, value, k, j) <==> j == k + 1 <= |value| && value[k] == c
      {
        LiteralsSpan(begin, front, strict, value, i, k);
        LiteralSpan(c, strict, value, k, j);
      }
      assert text == front + [c];
      SliceAppend(value, i, j, front, c);
      if j == i + |text| <= |value| {
        LiteralsSpan(begin, front, strict, value, i, j - 1);
        LiteralSpan(c, strict, value, j - 1, j);
      }
    }
  }

  lemma SliceAppend(value: string, i: nat, j: nat, front: string, c: char)
    ensures j == i + |front| + 1 <= |value| && value[i..j] == front + [c] <==>
      j == i + |front| + 1 <= |value| && value[i..j - 1] == front && value[j - 1] == c
  {
    if j == i + |front| + 1 <= |value| {
      assert value[i..j] == value[i..j - 1] + [value[j - 1]];
      assert (front + [c])[..|front|] == front && (front + [c])[|front|] == c;
      assert value[i..j][..|front|] == value[i..j - 1] && value[i..j][|front|] == value[j - 1];
    }
  }

  lemma NoItemsSpan(strict: bool, value: string, i: nat, j: nat)
    ensures SpansAll([], strict, value, i, j) <==> i == j
  {
  }

  lemma TextSpan(text: string, begin: bool, end: bool, strict: bool, value: string, i: nat, j: nat)
    requires i <= |value|
    ensures SpansAll(TextItems(text, begin, end), strict, value, i, j) <==>
      OccursAt(text, begin, end, value, i) && j == i + |text|
  {
    hide Spans, SpansAll;
    var items := BeginItems(begin) + Literals(text);
    LiteralsSpan(begin, text, strict, value, i, j);
    if end {
      assert TextItems(text, begin, end) == items + [AnchorNode(End)];
      SpansAllSplit(items, AnchorNode(End), strict, value, i, j);
      forall k: nat
        ensures SpansAll(items, strict, value, i, k) <==>
          (begin ==> i == 0) && k == i + |text| <= |value| && value[i..k] == text
        ensures Spans(AnchorNode(End), strict, value, k, j) <==> k == j == |value|
      {
        LiteralsSpan(begin, text, strict, value, i, k);
        AnchorSpan(End, strict, value, k, j);
      }
    } else {
      assert TextItems(text, begin, end) == items;
    }
  }

  // Main result for texts: a plain text is found exactly where it stands.
  lemma {:induction false} TextFound(text: string, begin: bool, end: bool, strict: bool, value: string)
    requires IsPlain(text) && (text != "" || begin || end)
    ensures Parse(TextPattern(text, begin, end)).Ok?
    ensures Matches(Parse(TextPattern(text, begin, end)).value, strict, value) <==> Occurs(text, begin, end, value)
  {
    hide Spans, SpansAll, ItemsText, Parse, OccursAt;
    var p, items := TextPattern(text, begin, end), TextItems(text, begin, end);
    TextItemsSpelled(text, begin, end);
    ItemsAreParsed(p, items);
    forall i: nat, j: nat | i <= |value|
      ensures Spans(Sequence(items), strict, value, i, j) <==>
        OccursAt(text, begin, end, value, i) && j == i + |text|
    {
      SpansSequence(items, strict, value, i, j);
      TextSpan(text, begin, end, strict, value, i, j);
    }
    if Occurs(text, begin, end, value) {
      var k: nat :| k <= |value| && OccursAt(text, begin, end, value, k);
      SpanMatches(Sequence(items), strict, value, k, k + |text|);
    }
  }

  // ---------------------------------------------------------------------
  // One character
  // ---------------------------------------------------------------------

  // The node takes the character at k.
  ghost predicate Takes(node: Node, strict: bool, value: string, k: nat) {
    k < |value| && Spans(node, strict, value, k, k + 1)
  }

  lemma OneCharacterFound(node: Node, strict: bool, value: string)
    requires IsAtom(node) && !node.AnchorNode?
    ensures Matches(node, strict, value) <==> exists k: nat :: Takes(node, strict, value, k)
  {
    if Matches(node, strict, value) {
      var i, j := MatchWitness(node, strict, value);
      assert Takes(node, strict, value, i);
    }
    if k: nat :| Takes(node, strict, value, k) {
      SpanMatches(node, strict, value, k, k + 1);
    }
  }

  lemma AtomIsParsed(p: string, node: Node)
    requires AtomText(p, 0, |p|, node) && !node.AnchorNode?
    ensures Parse(p) == Ok(node)
  {
    hide AtomText, Parse;
    assert 0 < |p| by { AtomStart(p, 0, |p|, node); }
    NothingSpelled(p);
    assert QuantifiedText(p, 0, |p|, node);
    ItemsCons(p, 0, |p|, |p|, node, []);
    assert [node] + [] == [node];
    ItemsAreParsed(p, [node]);
  }

  // Main result for the dot: some character other than CR and LF.
  lemma DotFound(strict: bool, value: string)
    ensures Parse(".") == Ok(DotNode)
    ensures Matches(DotNode, strict, value) <==>
      exists k: nat | k < |value| :: value[k] as int != 0x0A && value[k] as int != 0x0D
  {
    hide Parse;
    assert AtomText(".", 0, 1, DotNode) by { DotIsAtom("."); }
    AtomIsParsed(".", DotNode);
    OneCharacterFound(DotNode, strict, value);
    forall k: nat
      ensures Takes(DotNode, strict, value, k) <==>
        k < |value| && value[k] as int != 0x0A && value[k] as int != 0x0D
    {
    }
  }

  lemma DotIsAtom(p: string)
    requires p == "."
    ensures AtomText(p, 0, 1, DotNode)
  {
    hide ClassText;
  }

  // ---------------------------------------------------------------------
  // Classes
  // ---------------------------------------------------------------------

  predicate InClass(values: set<char>, ranges: seq<(int, int)>, c: char) {
    c in values || exists k | 0 <= k < |ranges| :: ranges[k].0 <= c as int <= ranges[k].1
  }

  predicate InItem(item: ClassItem, c: char) {
    match item
    case Single(value) => c == value
    case Range(low, high) => low <= c <= high
  }

  predicate InItems(items: seq<ClassItem>, c: char) {
    exists k | 0 <= k < |items| :: InItem(items[k], c)
  }

  // Some character of the value is in the class, or outside it if it is negated.
  predicate SetOccurs(items: seq<ClassItem>, negated: bool, value: string) {
    exists k: nat | k < |value| :: negated <==> !InItems(items, value[k])
  }

  lemma {:induction false} ItemsAreMembers(items: seq<ClassItem>, c: char)
    ensures InItems(items, c) <==> InClass(Members(items), Ranges(items), c)
  {
    if items != [] {
      ItemsAreMembers(items[1..], c);
      InItemsFirst(items, c);
      if items[0].Range? {
        InRangesFirst(items, c);
      }
    }
  }

  lemma InItemsFirst(items: seq<ClassItem>, c: char)
    requires items != []
    ensures InItems(items, c) <==> InItem(items[0], c) || InItems(items[1..], c)
  {
    var rest := items[1..];
    if InItems(rest, c) {
      var k :| 0 <= k < |rest| && InItem(rest[k], c);
      assert items[k + 1] == rest[k];
    }
    if InItems(items, c) {
      var k :| 0 <= k < |items| && InItem(items[k], c);
      if k > 0 { assert rest[k - 1] == items[k]; }
    }
  }

  lemma InRangesFirst(items: seq<ClassItem>, c: char)
    requires items != [] && items[0].Range?
    ensures InClass(Members(items), Ranges(items), c) <==>
      items[0].low <= c <= items[0].high || InClass(Members(items[1..]), Ranges(items[1..]), c)
  {
    var rest, all := Ranges(items[1..]), Ranges(items);
    assert all == [(items[0].low as int, items[0].high as int)] + rest;
    if k :| 0 <= k < |rest| && rest[k].0 <= c as int <= rest[k].1 {
      assert all[k + 1] == rest[k];
    }
    if k :| 0 <= k < |all| && all[k].0 <= c as int <= all[k].1 {
      assert k > 0 ==> rest[k - 1] == all[k];
    }
    assert all[0].0 == items[0].low as int && all[0].1 == items[0].high as int;
  }

  // Main result for classes, by the parsed node.
  lemma ClassNodeFound(node: Node, strict: bool, value: string)
    requires node.ClassNode?
    ensures Matches(node, strict, value) <==>
      exists k: nat | k < |value| :: node.negated <==> !InClass(node.values, node.ranges, value[k])
  {
    OneCharacterFound(node, strict, value);
    forall k: nat
      ensures Takes(node, strict, value, k) <==>
        k < |value| && (node.negated <==> !InClass(node.values, node.ranges, value[k]))
    {
    }
  }

  // Main result for classes, by the items that the pattern spells.
  lemma {:induction false} ClassFound(p: string, items: seq<ClassItem>, tokens: seq<Token>, node: Node, strict: bool,
          value: string)
    requires ClassText(p, 0, |p|, node) && ItemsOf(items, tokens, node)
    ensures Parse(p) == Ok(node)
    ensures Matches(node, strict, value) <==> SetOccurs(items, node.negated, value)
  {
    hide ClassText, Parse, InItems, InClass;
    assert AtomText(p, 0, |p|, node) by { ClassIsAtom(p, node); }
    AtomIsParsed(p, node);
    ClassNodeFound(node, strict, value);
    forall c
      ensures InItems(items, c) <==> InClass(node.values, node.ranges, c)
    {
      ItemsAreMembers(items, c);
    }
  }

  lemma ClassIsAtom(p: string, node: Node)
    requires ClassText(p, 0, |p|, node)
    ensures AtomText(p, 0, |p|, node) && !node.AnchorNode?
  {
  }

  // The set of the characters of a plain text, or its complement.
  function SetPattern(text: string, negated: bool): string {
    "[" + (if negated then "^" else "") + text + "]"
  }

  function Tokens(text: string): seq<Token> {
    seq(|text|, k requires 0 <= k < |text| => (text[k], false))
  }

  function Singles(text: string): seq<ClassItem> {
    seq(|text|, k requires 0 <= k < |text| => Single(text[k]))
  }

  lemma {:induction false} TokensSpelled(p: string, a: nat, text: string)
    requires a + |text| <= |p| && p[a..a + |text|] == text && IsPlain(text)
    ensures TokensText(p, a, a + |text|, Tokens(text))
    decreases |text|
  {
    if text != "" {
      assert p[a] == p[a..a + |text|][0] == text[0];
      assert p[a + 1..a + 1 + |text[1..]|] == text[1..];
      TokensSpelled(p, a + 1, text[1..]);
      assert Tokens(text)[1..] == Tokens(text[1..]);
      assert !IsControl(text[0]) && text[0] != ']' && text[0] != '\\' by { PlainIsNoMeta(text[0]); }
    }
  }

  lemma {:induction false} SinglesSpelled(text: string)
    requires '-' !in text
    ensures ItemsSpelled(Singles(text), Tokens(text))
  {
    if text != "" {
      assert text[0] in text && forall k | 0 <= k < |text[1..]| :: text[1..][k] == text[k + 1];
      SinglesSpelled(text[1..]);
      assert Singles(text)[1..] == Singles(text[1..]) && Tokens(text)[1..] == Tokens(text[1..]);
    }
  }

  // Main result for sets: some character of the value is listed, or not.
  lemma SetFound(text: string, negated: bool, strict: bool, value: string)
    requires IsPlain(text) && text != "" && '-' !in text
    ensures Parse(SetPattern(text, negated)).Ok?
    ensures Matches(Parse(SetPattern(text, negated)).value, strict, value) <==>
      exists k: nat | k < |value| :: negated <==> value[k] !in text
  {
    hide TokensText, ItemsSpelled, InItems, Parse, ClassText;
    var p, items, a := SetPattern(text, negated), Singles(text), if negated then 2 else 1;
    var node := ClassNode(Members(items), Ranges(items), negated);
    assert p[a..a + |text|] == text && a + |text| == |p| - 1 && p[0] == '[' && p[|p| - 1] == ']';
    assert p[1] == '^' <==> negated by {
      if !negated { assert p[1] == text[0] != '^' by { PlainIsNoMeta(text[0]); } }
    }
    TokensSpelled(p, a, text);
    SinglesSpelled(text);
    SetIsClass(p, items, Tokens(text), node);
    ClassFound(p, items, Tokens(text), node, strict, value);
    forall c
      ensures InItems(items, c) <==> c in text
    {
      InSingles(text, c);
    }
  }

  lemma SetIsClass(p: string, items: seq<ClassItem>, tokens: seq<Token>, node: Node)
    requires 3 <= |p| && p[0] == '[' && p[|p| - 1] == ']' && items != [] && ItemsOf(items, tokens, node)
    requires node.negated <==> p[1] == '^'
    requires TokensText(p, if node.negated then 2 else 1, |p| - 1, tokens)
    ensures ClassText(p, 0, |p|, node)
  {
    hide TokensText, ItemsSpelled;
    assert TokensText(p, if node.negated then 0 + 2 else 0 + 1, |p| - 1, tokens);
  }

  lemma InSingles(text: string, c: char)
    ensures InItems(Singles(text), c) <==> c in text
  {
    if c in text {
      var k :| 0 <= k < |text| && text[k] == c;
      assert InItem(Singles(text)[k], c);
    }
  }

  // All characters between two plain ASCII ones, or all others.
  function RangePattern(low: char, high: char, negated: bool): string {
    "[" + (if negated then "^" else "") + [low, '-', high] + "]"
  }

  // Main result for ranges.
  lemma RangeFound(low: char, high: char, negated: bool, strict: bool, value: string)
    requires IsPlainChar(low) && IsPlainChar(high) && low != '-' && low <= high && high as int <= 0x7F
    ensures Parse(RangePattern(low, high, negated)).Ok?
    ensures Matches(Parse(RangePattern(low, high, negated)).value, strict, value) <==>
      exists k: nat | k < |value| :: negated <==> !(low <= value[k] <= high)
  {
    hide TokensText, ItemsSpelled, Parse, ClassText;
    var p, items, a := RangePattern(low, high, negated), [Range(low, high)], if negated then 2 else 1;
    var tokens: seq<Token> := [(low, false), ('-', false), (high, false)];
    var node := ClassNode({}, [(low as int, high as int)], negated);
    assert IsPlainChar('-');
    assert p[a..a + 3] == [low, '-', high] && a + 3 == |p| - 1 && p[0] == '[' && p[|p| - 1] == ']';
    assert p[1] == '^' <==> negated by {
      if !negated { assert p[1] == low != '^' by { PlainIsNoMeta(low); } }
    }
    assert Tokens([low, '-', high]) == tokens;
    TokensSpelled(p, a, [low, '-', high]);
    RangeSpelled(low, high, tokens);
    SetIsClass(p, items, tokens, node);
    ClassFound(p, items, tokens, node, strict, value);
    forall c
      ensures InItems(items, c) <==> low <= c <= high
    {
      assert InItem(items[0], c) <==> low <= c <= high;
    }
  }

  lemma RangeSpelled(low: char, high: char, tokens: seq<Token>)
    requires low != '-' && low <= high && high as int <= 0x7F
    requires tokens == [(low, false), ('-', false), (high, false)]
    ensures ItemsSpelled([Range(low, high)], tokens)
    ensures Members([Range(low, high)]) == {} && Ranges([Range(low, high)]) == [(low as int, high as int)]
  {
    assert tokens[3..] == [] && [Range(low, high)][1..] == [];
    assert ItemsSpelled([], []) && Members([]) == {} && Ranges([]) == [];
  }

  // ---------------------------------------------------------------------
  // Escapes, and what is refused
  // ---------------------------------------------------------------------

  // The character that an escape stands for: `\t`, `\n` and `\r` for tab, line
  // feed and carriage return, any other for itself.
  function Escaped(c: char): int {
    if c == 't' then 0x09 else if c == 'n' then 0x0A else if c == 'r' then 0x0D else c as int
  }

  lemma NoAtomNoPattern(p: string)
    requires p != "" && p[0] != '|' && ParseAtom(p, 0).Err?
    ensures Parse(p).Err?
  {
    hide ParseAtom;
    assert ParseQuantified(p, 0).Err? && ParseItems(p, None, 0).Err? && ParseAlternative(p, true, None, 0).Err?;
    assert ParseBranches(p, true, None, 0).Err? && ParseAlternation(p, true, None, 0).Err?;
  }

  predicate IsEscapable(c: char) {
    || c == '\\' || c == '.' || c == '^' || c == '$' || c == '*' || c == '+' || c == '?' || c == '{' || c == '}'
    || c == '[' || c == ']' || c == '(' || c == ')' || c == '|' || c == 't' || c == 'n' || c == 'r'
  }

  lemma EscapableIsListed(c: char)
    ensures IsEscapable(c) <==> c in "\\.^$*+?{}[]()|tnr"
  {
    var listed := "\\.^$*+?{}[]()|tnr";
    assert listed[0] == '\\' && listed[1] == '.' && listed[2] == '^' && listed[3] == '$' && listed[4] == '*';
    assert listed[5] == '+' && listed[6] == '?' && listed[7] == '{' && listed[8] == '}' && listed[9] == '[';
    assert listed[10] == ']' && listed[11] == '(' && listed[12] == ')' && listed[13] == '|';
    assert listed[14] == 't' && listed[15] == 'n' && listed[16] == 'r' && |listed| == 17;
  }

  lemma EscapesAre(c: char)
    ensures c in ESCAPES && c != '-' <==> IsEscapable(c)
    ensures c in ESCAPES ==> ESCAPES[c] as int == Escaped(c)
  {
  }

  // Main result for escapes.
  lemma EscapeFound(c: char, strict: bool, value: string)
    ensures Parse(['\\', c]).Ok? <==> c in "\\.^$*+?{}[]()|tnr"
    ensures Parse(['\\', c]).Ok? ==>
      (Matches(Parse(['\\', c]).value, strict, value) <==>
         exists k: nat | k < |value| :: value[k] as int == Escaped(c))
  {
    hide Parse, ESCAPES, Escaped, IsEscapable;
    var p := ['\\', c];
    EscapesAre(c);
    EscapableIsListed(c);
    if c in ESCAPES && c != '-' {
      var node := LiteralNode(ESCAPES[c]);
      EscapeIsAtom(p);
      AtomIsParsed(p, node);
      OneCharacterFound(node, strict, value);
      forall k: nat
        ensures Takes(node, strict, value, k) <==> k < |value| && value[k] as int == Escaped(c)
      {
        LiteralSpan(ESCAPES[c], strict, value, k, k + 1);
      }
    } else {
      assert ParseAtom(p, 0).Err?;
      NoAtomNoPattern(p);
    }
  }

  lemma EscapeIsAtom(p: string)
    requires |p| == 2 && p[0] == '\\' && p[1] in ESCAPES && p[1] != '-'
    ensures AtomText(p, 0, 2, LiteralNode(ESCAPES[p[1]]))
  {
    hide ClassText;
  }

  // Main result for single characters: plain ones, the dot and the anchors are
  // patterns, other metacharacters and controls are refused.
  lemma CharacterAccepted(c: char)
    ensures Parse([c]).Ok? <==> IsPlainChar(c) || c in ".^$"
  {
    hide Parse, META;
    var p := [c];
    if IsPlainChar(c) {
      TextFound(p, false, false, true, "");
      assert TextPattern(p, false, false) == p;
    } else if c == '.' {
      DotFound(true, "");
      assert p == ".";
    } else if c == '^' {
      TextFound("", true, false, true, "");
      assert TextPattern("", true, false) == p && p[0] in ".^$";
    } else if c == '$' {
      TextFound("", false, true, true, "");
      assert TextPattern("", false, true) == p && p[0] in ".^$";
    } else {
      CharacterRefused(c);
    }
  }

  lemma CharacterRefused(c: char)
    requires !IsPlainChar(c) && c != '.' && c != '^' && c != '$'
    ensures Parse([c]).Err? && c !in ".^$"
  {
    hide Parse;
    var p := [c];
    if c == '|' {
      EmptyAlternative(p);
    } else {
      assert ParseAtom(p, 0).Err? by {
        if !IsControl(c) { assert c in META by { ListedIsMeta(c); } }
      }
      NoAtomNoPattern(p);
    }
  }

  lemma EmptyAlternative(p: string)
    requires p != "" && p[0] == '|'
    ensures Parse(p).Err?
  {
    assert ParseItems(p, None, 0) == Ok(([], 0)) && ParseAlternative(p, true, None, 0).Err?;
    assert ParseBranches(p, true, None, 0).Err? && ParseAlternation(p, true, None, 0).Err?;
  }

  lemma ListedIsMeta(c: char)
    requires c in ".^$*+?{}[]()|\\"
    ensures c in META
  {
  }

  // ---------------------------------------------------------------------
  // Counted characters and choices
  // ---------------------------------------------------------------------

  // `^`, a character, a quantifier, `$`.
  function CountedPattern(c: char, quantifier: string): string {
    "^" + [c] + quantifier + "$"
  }

  function CountedItems(c: char, bounds: Bounds): seq<Node> {
    [AnchorNode(Begin), RepeatNode(LiteralNode(c), bounds.0, bounds.1, bounds.2), AnchorNode(End)]
  }

  lemma CountedIsSpelled(c: char, quantifier: string, bounds: Bounds)
    requires IsPlainChar(c) && QuantifierText(quantifier, bounds)
    ensures var p := CountedPattern(c, quantifier);
      ItemsText(p, 0, |p|, CountedItems(c, bounds))
  {
    hide ItemsText, QuantifiedText, AtomText, QuantifierText, Numeral;
    var p, j := CountedPattern(c, quantifier), 2 + |quantifier|;
    var node := RepeatNode(LiteralNode(c), bounds.0, bounds.1, bounds.2);
    QuantifierNotEmpty(quantifier, bounds);
    NothingSpelled(p);
    AnchorAtom(p, j, End);
    ItemsCons(p, j, j + 1, |p|, AnchorNode(End), []);
    assert [AnchorNode(End)] + [] == [AnchorNode(End)];
    PlainAtom(p, 1);
    assert p[2..j] == quantifier && bounds == (bounds.0, bounds.1, bounds.2);
    RepeatText(p, 1, 2, j, node);
    ItemsCons(p, 1, j, |p|, node, [AnchorNode(End)]);
    AnchorAtom(p, 0, Begin);
    ItemsCons(p, 0, 1, |p|, AnchorNode(Begin), [node] + [AnchorNode(End)]);
    assert [AnchorNode(Begin)] + ([node] + [AnchorNode(End)]) == CountedItems(c, bounds);
  }

  lemma QuantifierNotEmpty(quantifier: string, bounds: Bounds)
    requires QuantifierText(quantifier, bounds)
    ensures quantifier != ""
  {
  }

  // Only the character, throughout.
  predicate AllAre(c: char, value: string, i: nat, j: nat) {
    i <= j <= |value| && forall k | i <= k < j :: value[k] == c
  }

  lemma {:induction false} LiteralTimes(c: char, n: nat, strict: bool, value: string, i: nat, j: nat)
    requires i <= |value|
    ensures SpansTimes(LiteralNode(c), n, strict, value, i, j) <==> j == i + n && AllAre(c, value, i, j)
    decreases n
  {
    if n > 0 {
      if SpansTimes(LiteralNode(c), n, strict, value, i, j) {
        var k := SpansTimesLast(LiteralNode(c), n, strict, value, i, j);
        LiteralTimes(c, n - 1, strict, value, i, k);
        LiteralSpan(c, strict, value, k, j);
      }
      if j == i + n && AllAre(c, value, i, j) {
        LiteralTimes(c, n - 1, strict, value, i, j - 1);
        LiteralSpan(c, strict, value, j - 1, j);
        SpansTimesMore(LiteralNode(c), n, strict, value, i, j - 1, j);
      }
    }
  }

  lemma CountedSpan(c: char, bounds: Bounds, strict: bool, value: string, i: nat, j: nat)
    requires i <= |value|
    ensures var node := RepeatNode(LiteralNode(c), bounds.0, bounds.1, bounds.2);
      Spans(node, strict, value, i, j) <==>
        AllAre(c, value, i, j) && bounds.0 <= j - i && (bounds.1.Some? ==> j - i <= bounds.1.value)
  {
    hide SpansTimes, AllAre;
    var node := RepeatNode(LiteralNode(c), bounds.0, bounds.1, bounds.2);
    if Spans(node, strict, value, i, j) {
      var n := RepeatCount(node, strict, value, i, j);
      LiteralTimes(c, n, strict, value, i, j);
    }
    if AllAre(c, value, i, j) && bounds.0 <= j - i && (bounds.1.Some? ==> j - i <= bounds.1.value) {
      LiteralTimes(c, j - i, strict, value, i, j);
      RepeatOf(node, j - i, strict, value, i, j);
    }
  }

  lemma CountedItemsSpan(c: char, bounds: Bounds, strict: bool, value: string, i: nat, j: nat)
    requires i <= |value|
    ensures SpansAll(CountedItems(c, bounds), strict, value, i, j) <==>
      && i == 0 && j == |value| && AllAre(c, value, 0, |value|)
      && bounds.0 <= |value| && (bounds.1.Some? ==> |value| <= bounds.1.value)
  {
    hide Spans, SpansAll, AllAre;
    var node := RepeatNode(LiteralNode(c), bounds.0, bounds.1, bounds.2);
    var two: seq<Node> := [AnchorNode(Begin), node];
    assert CountedItems(c, bounds) == two + [AnchorNode(End)] && two == [AnchorNode(Begin)] + [node];
    SpansAllSplit(two, AnchorNode(End), strict, value, i, j);
    forall k: nat
      ensures SpansAll(two, strict, value, i, k) <==> i == 0 && Spans(node, strict, value, 0, k)
      ensures Spans(AnchorNode(End), strict, value, k, j) <==> k == j == |value|
    {
      BeginThenSpan(node, strict, value, i, k);
      AnchorSpan(End, strict, value, k, j);
    }
    CountedSpan(c, bounds, strict, value, 0, |value|);
    if i == 0 && j == |value| && Spans(node, strict, value, 0, |value|) {
      assert SpansAll(two, strict, value, i, |value|) && Spans(AnchorNode(End), strict, value, |value|, j);
    }
  }

  lemma BeginThenSpan(node: Node, strict: bool, value: string, i: nat, j: nat)
    ensures SpansAll([AnchorNode(Begin)] + [node], strict, value, i, j) <==> i == 0 && Spans(node, strict, value, 0, j)
  {
    hide Spans, SpansAll;
    SpansAllSplit([AnchorNode(Begin)], node, strict, value, i, j);
    forall k: nat
      ensures SpansAll([AnchorNode(Begin)], strict, value, i, k) <==> i == k == 0
    {
      assert [AnchorNode(Begin)] == [] + [AnchorNode(Begin)];
      SpansAllSplit([], AnchorNode(Begin), strict, value, i, k);
      AnchorSpan(Begin, strict, value, i, k);
      forall h: nat ensures SpansAll([], strict, value, i, h) <==> i == h { NoItemsSpan(strict, value, i, h); }
    }
  }

  // Nothing but the character, as often as the bounds allow.
  predicate IsCount(c: char, bounds: Bounds, value: string) {
    && (forall k | 0 <= k < |value| :: value[k] == c)
    && bounds.0 <= |value| && (bounds.1.Some? ==> |value| <= bounds.1.value)
  }

  // Main result for quantifiers: the whole value is that character, so many times.
  lemma {:induction false} CountedFound(c: char, quantifier: string, bounds: Bounds, strict: bool, value: string)
    requires IsPlainChar(c) && QuantifierText(quantifier, bounds)
    ensures Parse(CountedPattern(c, quantifier)).Ok?
    ensures Matches(Parse(CountedPattern(c, quantifier)).value, strict, value) <==> IsCount(c, bounds, value)
  {
    hide Spans, SpansAll, ItemsText, Parse, QuantifierText;
    var p, items := CountedPattern(c, quantifier), CountedItems(c, bounds);
    CountedIsSpelled(c, quantifier, bounds);
    ItemsAreParsed(p, items);
    forall i: nat, j: nat | i <= |value|
      ensures Spans(Sequence(items), strict, value, i, j) <==>
        && i == 0 && j == |value| && AllAre(c, value, 0, |value|)
        && bounds.0 <= |value| && (bounds.1.Some? ==> |value| <= bounds.1.value)
    {
      SpansSequence(items, strict, value, i, j);
      CountedItemsSpan(c, bounds, strict, value, i, j);
    }
    if Spans(Sequence(items), strict, value, 0, |value|) {
      SpanMatches(Sequence(items), strict, value, 0, |value|);
    }
  }

  function ChoicePattern(first: string, second: string): string {
    first + "|" + second
  }

  lemma PlainIsAlternative(p: string, i: nat, text: string)
    requires i + |text| <= |p| && p[i..i + |text|] == text && IsPlain(text) && text != ""
    ensures AlternativeText(p, true, i, i + |text|, Sequence(Literals(text)))
  {
    hide ItemsText;
    var items := Literals(text);
    assert ItemsText(p, i + |text|, i + |text|, []) by { EmptyItemsText(p, i + |text|); }
    LiteralsSpelled(p, i, text, i + |text|, []);
    assert items + [] == items;
    if |items| == 1 {
      assert items == [Sequence(items)];
    }
  }

  lemma EmptyItemsText(p: string, i: nat)
    requires i <= |p|
    ensures ItemsText(p, i, i, [])
  {
  }

  lemma ChoiceIsParsed(first: string, second: string)
    requires IsPlain(first) && IsPlain(second) && first != "" && second != ""
    ensures Parse(ChoicePattern(first, second)) ==
      Ok(AlternateNode([Sequence(Literals(first)), Sequence(Literals(second))]))
  {
    hide AlternativeText, Parse, Literals, Sequence;
    var p, a, b := ChoicePattern(first, second), Sequence(Literals(first)), Sequence(Literals(second));
    assert p[0..0 + |first|] == first && p[|first|] == '|' && p[|first| + 1..|first| + 1 + |second|] == second;
    PlainIsAlternative(p, 0, first);
    PlainIsAlternative(p, |first| + 1, second);
    assert BranchesText(p, true, |first| + 1, |p|, [b]);
    BranchesCons(p, true, 0, |first|, |p|, a, [b]);
    assert [a] + [b] == [a, b];
    ParseIffGrammar(p, AlternateNode([a, b]));
  }

  lemma LiteralsHaveStates(text: string)
    requires text != ""
    ensures StateCount(Sequence(Literals(text))) > 0
  {
    LiteralStates(Literals(text));
  }

  lemma {:induction false} LiteralStates(items: seq<Node>)
    requires forall k | 0 <= k < |items| :: items[k].LiteralNode?
    ensures StateCountSum(items) == |items|
  {
    if items != [] {
      LiteralStates(items[..|items| - 1]);
    }
  }

  lemma PlainSpan(text: string, strict: bool, value: string, i: nat, j: nat)
    requires text != "" && i <= |value|
    ensures Spans(Sequence(Literals(text)), strict, value, i, j) <==>
      OccursAt(text, false, false, value, i) && j == i + |text|
  {
    assert TextItems(text, false, false) == Literals(text);
    SpansSequence(Literals(text), strict, value, i, j);
    TextSpan(text, false, false, strict, value, i, j);
  }

  lemma TwoBranches(a: Node, b: Node, strict: bool, value: string, i: nat, j: nat)
    requires StateCount(a) > 0 && StateCount(b) > 0
    ensures Spans(AlternateNode([a, b]), strict, value, i, j) <==>
      Spans(a, strict, value, i, j) || Spans(b, strict, value, i, j)
  {
    assert [a, b][1..] == [b] && [b][1..] == [];
    assert SpansAny([b], strict, value, i, j) <==> Spans(b, strict, value, i, j);
  }

  // Main result for choices: one of the two texts stands in the value.
  lemma {:induction false} ChoiceFound(first: string, second: string, strict: bool, value: string)
    requires IsPlain(first) && IsPlain(second) && first != "" && second != ""
    ensures Parse(ChoicePattern(first, second)).Ok?
    ensures Matches(Parse(ChoicePattern(first, second)).value, strict, value) <==>
      Occurs(first, false, false, value) || Occurs(second, false, false, value)
  {
    hide Spans, Parse, OccursAt, Literals, Sequence;
    var a, b := Sequence(Literals(first)), Sequence(Literals(second));
    var node := AlternateNode([a, b]);
    ChoiceIsParsed(first, second);
    LiteralsHaveStates(first);
    LiteralsHaveStates(second);
    forall i: nat, j: nat | i <= |value|
      ensures Spans(node, strict, value, i, j) <==>
        || (OccursAt(first, false, false, value, i) && j == i + |first|)
        || (OccursAt(second, false, false, value, i) && j == i + |second|)
    {
      TwoBranches(a, b, strict, value, i, j);
      PlainSpan(first, strict, value, i, j);
      PlainSpan(second, strict, value, i, j);
    }
    if Occurs(first, false, false, value) {
      var k: nat :| k <= |value| && OccursAt(first, false, false, value, k);
      SpanMatches(node, strict, value, k, k + |first|);
    }
    if Occurs(second, false, false, value) {
      var k: nat :| k <= |value| && OccursAt(second, false, false, value, k);
      SpanMatches(node, strict, value, k, k + |second|);
    }
  }

  // ---------------------------------------------------------------------
  // All of it, for an answer of the engine
  // ---------------------------------------------------------------------

  // The answer is what the pattern says of the characters of the value, if it is
  // a text, the dot, a class, an escape, a counted character or a choice of texts.
  ghost predicate IsRightAnswer(pattern: string, value: string, found: bool) {
    && (forall text, begin, end | pattern == TextPattern(text, begin, end) && IsPlain(text) && pattern != "" ::
          found <==> Occurs(text, begin, end, value))
    && (pattern == "." ==>
          (found <==> exists k: nat | k < |value| :: value[k] as int != 0x0A && value[k] as int != 0x0D))
    && (forall items, tokens, node | ClassText(pattern, 0, |pattern|, node) && ItemsOf(items, tokens, node) ::
          found <==> SetOccurs(items, node.negated, value))
    && (forall text, negated | pattern == SetPattern(text, negated) && IsPlain(text) && text != "" && '-' !in text ::
          found <==> exists k: nat | k < |value| :: negated <==> value[k] !in text)
    && (forall low, high, negated | pattern == RangePattern(low, high, negated) && IsPlainChar(low)
          && IsPlainChar(high) && low != '-' && low <= high && high as int <= 0x7F ::
          found <==> exists k: nat | k < |value| :: negated <==> !(low <= value[k] <= high))
    && (|pattern| == 2 && pattern[0] == '\\' ==>
          (found <==> exists k: nat | k < |value| :: value[k] as int == Escaped(pattern[1])))
    && (forall c, quantifier, bounds: Bounds | pattern == CountedPattern(c, quantifier) && IsPlainChar(c)
          && QuantifierText(quantifier, bounds) ::
          found <==> IsCount(c, bounds, value))
    && (forall first: string, second: string | pattern == ChoicePattern(first, second) && IsPlain(first)
          && IsPlain(second) && first != "" && second != "" ::
          found <==> Occurs(first, false, false, value) || Occurs(second, false, false, value))
  }

  // Main result: both readings of a pattern answer so.
  lemma {:induction false} MatchesIsRight(pattern: string, strict: bool, value: string)
    requires Parse(pattern).Ok?
    ensures IsRightAnswer(pattern, value, Matches(Parse(pattern).value, strict, value))
  {
    hide Parse, Matches, Occurs, IsPlain, IsPlainChar, ClassText, SetOccurs, IsCount, QuantifierText, Escaped,
      TextPattern, SetPattern, RangePattern, CountedPattern, ChoicePattern;
    var found := Matches(Parse(pattern).value, strict, value);
    forall text, begin, end | pattern == TextPattern(text, begin, end) && IsPlain(text) && pattern != ""
      ensures found <==> Occurs(text, begin, end, value)
    {
      TextNotEmpty(text, begin, end);
      TextFound(text, begin, end, strict, value);
    }
    if pattern == "." {
      DotFound(strict, value);
    }
    forall items, tokens, node | ClassText(pattern, 0, |pattern|, node) && ItemsOf(items, tokens, node)
      ensures found <==> SetOccurs(items, node.negated, value)
    {
      ClassFound(pattern, items, tokens, node, strict, value);
    }
    forall text, negated | pattern == SetPattern(text, negated) && IsPlain(text) && text != "" && '-' !in text
      ensures found <==> exists k: nat | k < |value| :: negated <==> value[k] !in text
    {
      SetFound(text, negated, strict, value);
    }
    forall low, high, negated | pattern == RangePattern(low, high, negated) && IsPlainChar(low)
      && IsPlainChar(high) && low != '-' && low <= high && high as int <= 0x7F
      ensures found <==> exists k: nat | k < |value| :: negated <==> !(low <= value[k] <= high)
    {
      RangeFound(low, high, negated, strict, value);
    }
    if |pattern| == 2 && pattern[0] == '\\' {
      assert pattern == ['\\', pattern[1]];
      EscapeFound(pattern[1], strict, value);
    }
    forall c, quantifier, bounds: Bounds | pattern == CountedPattern(c, quantifier) && IsPlainChar(c)
      && QuantifierText(quantifier, bounds)
      ensures found <==> IsCount(c, bounds, value)
    {
      CountedFound(c, quantifier, bounds, strict, value);
    }
    forall first: string, second: string | pattern == ChoicePattern(first, second) && IsPlain(first)
      && IsPlain(second) && first != "" && second != ""
      ensures found <==> Occurs(first, false, false, value) || Occurs(second, false, false, value)
    {
      ChoiceFound(first, second, strict, value);
    }
  }

  lemma TextNotEmpty(text: string, begin: bool, end: bool)
    requires TextPattern(text, begin, end) != ""
    ensures text != "" || begin || end
  {
  }
}
