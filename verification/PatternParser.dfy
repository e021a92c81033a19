/** `_Parser`: recursive descent over a shared index.

    `ParseX(p, i)` is the value of the method X entered with index i.  The
    class at the end computes these functions with the index as a field. */
module PatternParser {
  import opened Wrappers
  import opened PatternSyntax
  import opened Decimal

  datatype PatternError = PatternError

  type Parsed<T> = Result<(T, nat), PatternError>

  const META: set<char> := {'.', '^', '$', '*', '+', '?', '{', '}', '[', ']', '(', ')', '|', '\\'}

  const ESCAPES: map<char, char> := map[
    '\\' := '\\', '.' := '.', '^' := '^', '$' := '$', '*' := '*', '+' := '+', '?' := '?', '{' := '{', '}' := '}',
    '[' := '[', ']' := ']', '(' := '(', ')' := ')', '|' := '|', '-' := '-', 't' := '\t', 'n' := '\n', 'r' := '\r']

  predicate IsControl(c: char) {
    c as int <= 0x1F || 0x7F <= c as int <= 0x9F
  }

  function Peek(p: string, i: nat): Option<char> {
    if i < |p| then Some(p[i]) else None
  }

  predicate IsQuantifierStart(c: Option<char>) {
    c in {Some('?'), Some('*'), Some('+'), Some('{')}
  }

  // ---------------------------------------------------------------------
  // Lexical pieces
  // ---------------------------------------------------------------------

  // `_escaped`, entered at the backslash.
  function ParseEscaped(p: string, i: nat, inClass: bool): (r: Parsed<char>)
    ensures r.Ok? ==> r.value.1 == i + 2 <= |p|
  {
    if i + 1 < |p| && p[i + 1] in ESCAPES && (p[i + 1] != '-' || inClass) then Ok((ESCAPES[p[i + 1]], i + 2))
    else Err(PatternError)
  }

  // The end of the run of digits that starts at i.
  function DigitsEnd(p: string, i: nat): (j: nat)
    requires i <= |p|
    ensures i <= j <= |p| && AllDigits(p[i..j])
    ensures j < |p| ==> !IsDigit(p[j])
    decreases |p| - i
  {
    if i < |p| && IsDigit(p[i]) then
      var j := DigitsEnd(p, i + 1);
      assert p[i..j] == [p[i]] + p[i + 1..j];
      j
    else i
  }

  function ParseDecimal(p: string, i: nat): (r: Parsed<nat>)
    requires i <= |p|
    ensures r.Ok? ==> i < r.value.1 <= |p|
  {
    var j := DigitsEnd(p, i);
    if !IsCanonical(p[i..j]) || Value(p[i..j]) > 1000 then Err(PatternError) else Ok((Value(p[i..j]), j))
  }

  type Bounds = (nat, Option<nat>, bool)

  // `_quantifier`, entered at one of ? * + {.
  function ParseQuantifier(p: string, i: nat): (r: Parsed<Bounds>)
    requires i < |p|
    ensures r.Ok? ==> i < r.value.1 <= |p|
  {
    if p[i] == '?' then Ok(((0, Some(1), false), i + 1))
    else if p[i] == '*' then Ok(((0, None, false), i + 1))
    else if p[i] == '+' then Ok(((1, None, false), i + 1))
    else
      var low := ParseDecimal(p, i + 1);
      if low.Err? then Err(PatternError)
      else
        var (minimum, j) := low.value;
        if Peek(p, j) == Some('}') then Ok(((minimum, Some(minimum), false), j + 1))
        else if Peek(p, j) != Some(',') then Err(PatternError)
        else if Peek(p, j + 1) == Some('}') then Ok(((minimum, None, true), j + 2))
        else
          var high := ParseDecimal(p, j + 1);
          if high.Err? then Err(PatternError)
          else
            var (maximum, k) := high.value;
            if Peek(p, k) != Some('}') || maximum < minimum then Err(PatternError)
            else Ok(((minimum, Some(maximum), false), k + 1))
  }

  // A character of a class and whether it was escaped.
  type Token = (char, bool)

  // The tokens of a class up to and including its closing bracket.
  function ParseTokens(p: string, i: nat): (r: Parsed<seq<Token>>)
    ensures r.Ok? ==> i < r.value.1 <= |p|
    decreases |p| - i
  {
    if i >= |p| then Err(PatternError)
    else if p[i] == ']' then Ok(([], i + 1))
    else if p[i] == '\\' then
      var escaped := ParseEscaped(p, i, true);
      if escaped.Err? then Err(PatternError)
      else
        var rest := ParseTokens(p, i + 2);
        if rest.Err? then Err(PatternError) else Ok(([(escaped.value.0, true)] + rest.value.0, rest.value.1))
    else if IsControl(p[i]) then Err(PatternError)
    else
      var rest := ParseTokens(p, i + 1);
      if rest.Err? then Err(PatternError) else Ok(([(p[i], false)] + rest.value.0, rest.value.1))
  }

  // The members and ranges that a token list spells.
  function GroupTokens(tokens: seq<Token>): Result<(set<char>, seq<(int, int)>), PatternError>
    decreases |tokens|
  {
    if tokens == [] then Ok(({}, []))
    else if tokens[0] == ('-', false) then Err(PatternError)
    else if |tokens| > 1 && tokens[1] == ('-', false) then
      if |tokens| == 2 || tokens[0].1 || tokens[2].1 || tokens[0].0 as int > 0x7F || tokens[2].0 as int > 0x7F
         || tokens[0].0 > tokens[2].0
      then Err(PatternError)
      else
        var rest := GroupTokens(tokens[3..]);
        if rest.Err? then Err(PatternError)
        else Ok((rest.value.0, [(tokens[0].0 as int, tokens[2].0 as int)] + rest.value.1))
    else
      var rest := GroupTokens(tokens[1..]);
      if rest.Err? then Err(PatternError) else Ok(({tokens[0].0} + rest.value.0, rest.value.1))
  }

  // `_character_class`, entered at the opening bracket.
  function ParseClass(p: string, i: nat): (r: Parsed<Node>)
    ensures r.Ok? ==> i < r.value.1 <= |p| && r.value.0.ClassNode?
  {
    var negated := Peek(p, i + 1) == Some('^');
    var tokens := ParseTokens(p, if negated then i + 2 else i + 1);
    if tokens.Err? || tokens.value.0 == [] then Err(PatternError)
    else
      var grouped := GroupTokens(tokens.value.0);
      if grouped.Err? then Err(PatternError)
      else Ok((ClassNode(grouped.value.0, grouped.value.1, negated), tokens.value.1))
  }

  // ---------------------------------------------------------------------
  // Recursive descent
  // ---------------------------------------------------------------------

  // Anchors only at the ends of a root alternative.
  predicate AnchorsPlaced(root: bool, items: seq<Node>) {
    forall k | 0 <= k < |items| && items[k].AnchorNode? ::
      root && (items[k].kind.Begin? ==> k == 0) && (items[k].kind.End? ==> k == |items| - 1)
  }

  function Sequence(items: seq<Node>): Node
    requires items != []
  {
    if |items| == 1 then items[0] else ConcatNode(items)
  }

  function Choice(branches: seq<Node>): Node
    requires branches != []
  {
    if |branches| == 1 then branches[0] else AlternateNode(branches)
  }

  function ParseAtom(p: string, i: nat): (r: Parsed<Node>)
    ensures r.Ok? ==> i < r.value.1 <= |p|
    decreases |p| - i, 0
  {
    if i >= |p| then Err(PatternError)
    else if p[i] == '.' then Ok((DotNode, i + 1))
    else if p[i] == '^' then Ok((AnchorNode(Begin), i + 1))
    else if p[i] == '$' then Ok((AnchorNode(End), i + 1))
    else if p[i] == '(' then
      var group := ParseAlternation(p, false, Some(')'), i + 1);
      if group.Err? || Peek(p, group.value.1) != Some(')') then Err(PatternError)
      else Ok((group.value.0, group.value.1 + 1))
    else if p[i] == '[' then ParseClass(p, i)
    else if p[i] == '\\' then
      var escaped := ParseEscaped(p, i, false);
      if escaped.Err? then Err(PatternError) else Ok((LiteralNode(escaped.value.0), escaped.value.1))
    else if p[i] in META || IsControl(p[i]) then Err(PatternError)
    else Ok((LiteralNode(p[i]), i + 1))
  }

  function ParseQuantified(p: string, i: nat): (r: Parsed<Node>)
    ensures r.Ok? ==> i < r.value.1 <= |p|
    decreases |p| - i, 1
  {
    var atom := ParseAtom(p, i);
    if atom.Err? then Err(PatternError)
    else
      var (node, j) := atom.value;
      if !IsQuantifierStart(Peek(p, j)) then atom
      else if node.AnchorNode? || ContainsRepeat(node) then Err(PatternError)
      else
        var quantifier := ParseQuantifier(p, j);
        if quantifier.Err? || IsQuantifierStart(Peek(p, quantifier.value.1)) then Err(PatternError)
        else
          var ((minimum, maximum, copy), k) := quantifier.value;
          Ok((RepeatNode(node, minimum, maximum, copy), k))
  }

  // The quantified atoms up to the end of an alternative.
  function ParseItems(p: string, terminator: Option<char>, i: nat): (r: Parsed<seq<Node>>)
    requires i <= |p|
    ensures r.Ok? ==> i <= r.value.1 <= |p| && (r.value.0 != [] ==> i < r.value.1)
    decreases |p| - i, 2
  {
    if i == |p| || p[i] == '|' || terminator == Some(p[i]) then Ok(([], i))
    else
      var item := ParseQuantified(p, i);
      if item.Err? then Err(PatternError)
      else
        var rest := ParseItems(p, terminator, item.value.1);
        if rest.Err? then Err(PatternError) else Ok(([item.value.0] + rest.value.0, rest.value.1))
  }

  function ParseAlternative(p: string, root: bool, terminator: Option<char>, i: nat): (r: Parsed<Node>)
    requires i <= |p|
    ensures r.Ok? ==> i < r.value.1 <= |p|
    decreases |p| - i, 3
  {
    var items := ParseItems(p, terminator, i);
    if items.Err? || items.value.0 == [] || !AnchorsPlaced(root, items.value.0) then Err(PatternError)
    else Ok((Sequence(items.value.0), items.value.1))
  }

  function ParseBranches(p: string, root: bool, terminator: Option<char>, i: nat): (r: Parsed<seq<Node>>)
    requires i <= |p|
    ensures r.Ok? ==> i < r.value.1 <= |p| && r.value.0 != []
    decreases |p| - i, 4
  {
    var branch := ParseAlternative(p, root, terminator, i);
    if branch.Err? then Err(PatternError)
    else if Peek(p, branch.value.1) != Some('|') then Ok(([branch.value.0], branch.value.1))
    else
      var rest := ParseBranches(p, root, terminator, branch.value.1 + 1);
      if rest.Err? then Err(PatternError) else Ok(([branch.value.0] + rest.value.0, rest.value.1))
  }

  function ParseAlternation(p: string, root: bool, terminator: Option<char>, i: nat): (r: Parsed<Node>)
    requires i <= |p|
    ensures r.Ok? ==> i < r.value.1 <= |p|
    decreases |p| - i, 5
  {
    var branches := ParseBranches(p, root, terminator, i);
    if branches.Err? then Err(PatternError) else Ok((Choice(branches.value.0), branches.value.1))
  }

  // `_Parser.parse`: all of the pattern is consumed.
  function Parse(p: string): Result<Node, PatternError> {
    if p == "" then Err(PatternError)
    else
      var r := ParseAlternation(p, true, None, 0);
      if r.Err? || r.value.1 != |p| then Err(PatternError) else Ok(r.value.0)
  }
}
