/** Character classes: a grammar of tokens and items, and the parser's agreement with it. */
module PatternClass {
  import opened Wrappers
  import opened PatternSyntax
  import opened PatternParser

  // ---------------------------------------------------------------------
  // The grammar: characters spell tokens, tokens spell items
  // ---------------------------------------------------------------------

  datatype ClassItem = Single(value: char) | Range(low: char, high: char)

  // An escape, or one character that is neither special in a class nor a control.
  predicate TokenText(p: string, a: nat, token: Token) {
    if token.1 then a + 1 < |p| && p[a] == '\\' && p[a + 1] in ESCAPES && ESCAPES[p[a + 1]] == token.0
    else a < |p| && p[a] == token.0 && token.0 != ']' && token.0 != '\\' && !IsControl(token.0)
  }

  // p[a..b] spells the tokens.
  predicate TokensText(p: string, a: nat, b: nat, tokens: seq<Token>)
    decreases |tokens|
  {
    if tokens == [] then a == b <= |p|
    else TokenText(p, a, tokens[0]) && TokensText(p, a + (if tokens[0].1 then 2 else 1), b, tokens[1..])
  }

  const DASH: Token := ('-', false)

  // A single token other than an unescaped dash, or x-y with unescaped ASCII
  // endpoints in order, x not being a dash.
  predicate ItemsSpelled(items: seq<ClassItem>, tokens: seq<Token>)
    decreases |items|
  {
    if items == [] then tokens == []
    else
      match items[0]
      case Single(c) =>
        tokens != [] && tokens[0].0 == c && tokens[0] != DASH && ItemsSpelled(items[1..], tokens[1..])
      case Range(low, high) =>
        && |tokens| >= 3 && tokens[0] == (low, false) && tokens[1] == DASH && tokens[2] == (high, false)
        && low != '-' && low <= high && high as int <= 0x7F
        && ItemsSpelled(items[1..], tokens[3..])
  }

  function Members(items: seq<ClassItem>): set<char> {
    if items == [] then {}
    else
      match items[0]
      case Single(c) => {c} + Members(items[1..])
      case Range(_, _) => Members(items[1..])
  }

  function Ranges(items: seq<ClassItem>): seq<(int, int)> {
    if items == [] then []
    else
      match items[0]
      case Single(_) => Ranges(items[1..])
      case Range(low, high) => [(low as int, high as int)] + Ranges(items[1..])
  }

  // p[i..j] is a bracket, possibly a caret, at least one item and a bracket.
  ghost predicate ClassText(p: string, i: nat, j: nat, node: Node) {
    && i + 2 < j <= |p| && p[i] == '[' && p[j - 1] == ']'
    && node.ClassNode? && (node.negated <==> p[i + 1] == '^')
    && exists items: seq<ClassItem>, tokens: seq<Token> ::
         ItemsOf(items, tokens, node) && TokensText(p, if node.negated then i + 2 else i + 1, j - 1, tokens)
  }

  predicate ItemsOf(items: seq<ClassItem>, tokens: seq<Token>, node: Node) {
    && items != [] && ItemsSpelled(items, tokens)
    && node.ClassNode? && node.values == Members(items) && node.ranges == Ranges(items)
  }

  // ---------------------------------------------------------------------
  // The token loop
  // ---------------------------------------------------------------------

  lemma {:induction false} TokensSound(p: string, a: nat)
    requires ParseTokens(p, a).Ok?
    ensures var (tokens, e) := ParseTokens(p, a).value;
      a < e <= |p| && p[e - 1] == ']' && TokensText(p, a, e - 1, tokens)
    decreases |p| - a
  {
    hide IsControl;
    if p[a] != ']' {
      TokensSound(p, if p[a] == '\\' then a + 2 else a + 1);
    }
  }

  lemma {:induction false} TokensComplete(p: string, a: nat, b: nat, tokens: seq<Token>)
    requires TokensText(p, a, b, tokens) && b < |p| && p[b] == ']'
    ensures ParseTokens(p, a) == Ok((tokens, b + 1))
    decreases |tokens|
  {
    hide IsControl;
    if tokens != [] {
      TokensComplete(p, a + (if tokens[0].1 then 2 else 1), b, tokens[1..]);
      assert tokens == [tokens[0]] + tokens[1..];
    }
  }

  // The token loop reads exactly the spelled tokens up to a closing bracket.
  lemma TokensIff(p: string, a: nat, e: nat, tokens: seq<Token>)
    ensures ParseTokens(p, a) == Ok((tokens, e)) <==>
      a < e <= |p| && p[e - 1] == ']' && TokensText(p, a, e - 1, tokens)
  {
    if ParseTokens(p, a).Ok? {
      TokensSound(p, a);
      var (found, end) := ParseTokens(p, a).value;
      assert ParseTokens(p, a).value == (found, end);
    }
    if a < e <= |p| && p[e - 1] == ']' && TokensText(p, a, e - 1, tokens) {
      TokensComplete(p, a, e - 1, tokens);
    }
  }

  // ---------------------------------------------------------------------
  // The grouping loop
  // ---------------------------------------------------------------------

  lemma {:induction false} GroupSound(tokens: seq<Token>) returns (items: seq<ClassItem>)
    requires GroupTokens(tokens).Ok?
    ensures ItemsSpelled(items, tokens) && GroupTokens(tokens) == Ok((Members(items), Ranges(items)))
    decreases |tokens|
  {
    if tokens == [] {
      items := [];
    } else if |tokens| > 1 && tokens[1] == ('-', false) {
      var rest := GroupSound(tokens[3..]);
      items := [Range(tokens[0].0, tokens[2].0)] + rest;
      assert items[1..] == rest;
    } else {
      var rest := GroupSound(tokens[1..]);
      items := [Single(tokens[0].0)] + rest;
      assert items[1..] == rest;
    }
  }

  lemma {:induction false} GroupComplete(items: seq<ClassItem>, tokens: seq<Token>)
    requires ItemsSpelled(items, tokens)
    ensures GroupTokens(tokens) == Ok((Members(items), Ranges(items)))
    ensures tokens != [] ==> tokens[0] != DASH
    decreases |items|
  {
    if items != [] {
      match items[0]
      case Single(c) => GroupComplete(items[1..], tokens[1..]);
      case Range(low, high) => GroupComplete(items[1..], tokens[3..]);
    }
  }

  // The grouping loop returns the members and ranges of the one list of items
  // that the tokens spell, and fails if they spell none.
  lemma GroupIff(tokens: seq<Token>, values: set<char>, ranges: seq<(int, int)>)
    ensures GroupTokens(tokens) == Ok((values, ranges)) <==>
      exists items :: ItemsSpelled(items, tokens) && values == Members(items) && ranges == Ranges(items)
  {
    if GroupTokens(tokens) == Ok((values, ranges)) {
      var items := GroupSound(tokens);
    }
    forall items | ItemsSpelled(items, tokens)
      ensures GroupTokens(tokens) == Ok((Members(items), Ranges(items)))
    {
      GroupComplete(items, tokens);
    }
  }

  // ---------------------------------------------------------------------
  // The whole class
  // ---------------------------------------------------------------------

  lemma ClassSound(p: string, i: nat)
    requires i < |p| && p[i] == '[' && ParseClass(p, i).Ok?
    ensures ClassText(p, i, ParseClass(p, i).value.1, ParseClass(p, i).value.0)
  {
    hide ParseTokens, GroupTokens, TokensText, ItemsSpelled, Members, Ranges;
    var (node, j) := ParseClass(p, i).value;
    var start := if node.negated then i + 2 else i + 1;
    var tokens := ParseTokens(p, start).value.0;
    TokensIff(p, start, j, tokens);
    var items := GroupSound(tokens);
    NoItems(items, tokens);
    NoTokens(p, start, j - 1, tokens);
    assert ItemsOf(items, tokens, node);
  }

  lemma NoItems(items: seq<ClassItem>, tokens: seq<Token>)
    requires ItemsSpelled(items, tokens)
    ensures items == [] <==> tokens == []
  {
  }

  lemma {:induction false} NoTokens(p: string, a: nat, b: nat, tokens: seq<Token>)
    requires TokensText(p, a, b, tokens)
    ensures a <= b <= |p| && (a == b <==> tokens == [])
    decreases |tokens|
  {
    if tokens != [] {
      NoTokens(p, a + (if tokens[0].1 then 2 else 1), b, tokens[1..]);
    }
  }

  lemma ClassComplete(p: string, i: nat, j: nat, node: Node)
    requires ClassText(p, i, j, node)
    ensures ParseClass(p, i) == Ok((node, j))
  {
    hide ParseTokens, GroupTokens, TokensText, ItemsSpelled, Members, Ranges;
    var start := if node.negated then i + 2 else i + 1;
    var items: seq<ClassItem>, tokens: seq<Token> :|
      ItemsOf(items, tokens, node) && TokensText(p, start, j - 1, tokens);
    NoItems(items, tokens);
    TokensIff(p, start, j, tokens);
    GroupComplete(items, tokens);
  }

  lemma ClassBrackets(p: string, i: nat, j: nat, node: Node)
    requires ClassText(p, i, j, node)
    ensures i + 2 < j <= |p| && p[i] == '[' && node.ClassNode?
  {
  }

  // A class is parsed to a node exactly when it spells that node.
  lemma ClassIff(p: string, i: nat, j: nat, node: Node)
    requires i < |p| && p[i] == '['
    ensures ParseClass(p, i) == Ok((node, j)) <==> ClassText(p, i, j, node)
  {
    if ParseClass(p, i).Ok? {
      ClassSound(p, i);
    }
    if ClassText(p, i, j, node) {
      ClassComplete(p, i, j, node);
    }
  }
}
