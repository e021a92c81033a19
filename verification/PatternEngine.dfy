/** `_Parser` and `compile_pattern` as they run, and the theorem about the whole engine. */
module PatternEngine {
  import opened Wrappers
  import opened PatternSyntax
  import opened PatternMeaning
  import opened PatternCompiler
  import opened PatternSearch
  import opened PatternText
  import opened PatternDeadBranches
  import opened PatternParser
  import opened PatternClass
  import opened PatternGrammar
  import opened PatternWellFormed
  import opened Decimal

  // What the twins of the class loops say about the text.
  lemma GroupMeaning(tokens: seq<Token>)
    ensures var r := GroupTokens(tokens);
      if r.Ok? then exists items :: ItemsSpelled(items, tokens) && r.value == (Members(items), Ranges(items))
      else forall items :: !ItemsSpelled(items, tokens)
  {
    if GroupTokens(tokens).Ok? {
      var items := GroupSound(tokens);
    }
    forall items | ItemsSpelled(items, tokens)
      ensures GroupTokens(tokens).Ok?
    {
      GroupComplete(items, tokens);
    }
  }

  lemma ClassMeaning(p: string, i: nat)
    requires i < |p| && p[i] == '['
    ensures var r := ParseClass(p, i);
      if r.Ok? then ClassText(p, i, r.value.1, r.value.0) else forall j, node :: !ClassText(p, i, j, node)
  {
    hide ParseClass, ClassText;
    if ParseClass(p, i).Ok? {
      ClassSound(p, i);
    }
    forall j: nat, node | ClassText(p, i, j, node)
      ensures ParseClass(p, i).Ok?
    {
      ClassComplete(p, i, j, node);
    }
  }

  lemma FrontAndRest<T>(front: seq<T>, x: T, rest: Parsed<seq<T>>)
    ensures rest.Ok? ==> (front + [x]) + rest.value.0 == front + ([x] + rest.value.0)
  {
  }

  class Parser {
    const pattern: string
    var index: nat

    constructor (pattern: string)
      ensures this.pattern == pattern && index == 0
    {
      this.pattern := pattern;
      index := 0;
    }

    // r is what the specification says, and on success the index is where it says.
    ghost predicate Agrees<T(!new)>(r: Result<T, PatternError>, spec: Parsed<T>)
      reads this
    {
      if spec.Ok? then r == Ok(spec.value.0) && index == spec.value.1 else r.Err?
    }

    method Escaped(inClass: bool) returns (r: Result<char, PatternError>)
      modifies this`index
      ensures Agrees(r, ParseEscaped(pattern, old(index), inClass))
    {
      index := index + 1;
      var current := Peek(pattern, index);
      if current.None? || current.value !in ESCAPES {
        return Err(PatternError);
      }
      if current.value == '-' && !inClass {
        return Err(PatternError);
      }
      index := index + 1;
      return Ok(ESCAPES[current.value]);
    }

    method DecimalBound() returns (r: Result<nat, PatternError>)
      requires index <= |pattern|
      modifies this`index
      ensures Agrees(r, ParseDecimal(pattern, old(index)))
    {
      var start := index;
      while index < |pattern| && IsDigit(pattern[index])
        invariant start <= index <= |pattern| && DigitsEnd(pattern, index) == DigitsEnd(pattern, start)
      {
        index := index + 1;
      }
      var value := pattern[start..index];
      if value == "" || (|value| > 1 && value[0] == '0') {
        return Err(PatternError);
      }
      var parsed := Value(value);
      if parsed > 1000 {
        return Err(PatternError);
      }
      return Ok(parsed);
    }

    method Quantifier() returns (r: Result<Bounds, PatternError>)
      requires index < |pattern|
      modifies this`index
      ensures Agrees(r, ParseQuantifier(pattern, old(index)))
    {
      hide ParseDecimal;
      var current := pattern[index];
      index := index + 1;
      if current == '?' {
        return Ok((0, Some(1), false));
      }
      if current == '*' {
        return Ok((0, None, false));
      }
      if current == '+' {
        return Ok((1, None, false));
      }
      var minimum := DecimalBound();
      if minimum.Err? {
        return Err(PatternError);
      }
      if Peek(pattern, index) == Some('}') {
        index := index + 1;
        return Ok((minimum.value, Some(minimum.value), false));
      }
      if Peek(pattern, index) != Some(',') {
        return Err(PatternError);
      }
      index := index + 1;
      if Peek(pattern, index) == Some('}') {
        index := index + 1;
        return Ok((minimum.value, None, true));
      }
      var maximum := DecimalBound();
      if maximum.Err? {
        return Err(PatternError);
      }
      if Peek(pattern, index) != Some('}') {
        return Err(PatternError);
      }
      index := index + 1;
      if maximum.value < minimum.value {
        return Err(PatternError);
      }
      return Ok((minimum.value, Some(maximum.value), false));
    }

    // The first loop of `_character_class`.
    method ClassTokens() returns (r: Result<seq<Token>, PatternError>)
      modifies this`index
      ensures Agrees(r, ParseTokens(pattern, old(index)))
      ensures r.Ok? ==> old(index) < index <= |pattern| && pattern[index - 1] == ']'
                        && TokensText(pattern, old(index), index - 1, r.value)
    {
      hide ParseEscaped;
      ghost var spec := ParseTokens(pattern, index);
      if spec.Ok? { TokensSound(pattern, index); }
      var tokens: seq<Token> := [];
      while true
        invariant var rest := ParseTokens(pattern, index);
          if spec.Ok?
          then rest.Ok? && spec.value.0 == tokens + rest.value.0 && spec.value.1 == rest.value.1
          else rest.Err?
        decreases if index <= |pattern| then |pattern| - index + 1 else 0
      {
        var current := Peek(pattern, index);
        if current.None? {
          return Err(PatternError);
        }
        if current.value == ']' {
          assert tokens + [] == tokens;
          index := index + 1;
          return Ok(tokens);
        }
        if current.value == '\\' {
          var escaped := Escaped(true);
          if escaped.Err? {
            return Err(PatternError);
          }
          FrontAndRest(tokens, (escaped.value, true), ParseTokens(pattern, index));
          tokens := tokens + [(escaped.value, true)];
          continue;
        }
        if current.value != '-' && IsControl(current.value) {
          return Err(PatternError);
        }
        FrontAndRest(tokens, (current.value, false), ParseTokens(pattern, index + 1));
        tokens := tokens + [(current.value, false)];
        index := index + 1;
      }
    }

    // Its second loop.
    method Group(tokens: seq<Token>) returns (r: Result<(set<char>, seq<(int, int)>), PatternError>)
      ensures r == GroupTokens(tokens)
      ensures r.Ok? ==> exists items :: ItemsSpelled(items, tokens) && r.value == (Members(items), Ranges(items))
      ensures r.Err? ==> forall items :: !ItemsSpelled(items, tokens)
    {
      GroupMeaning(tokens);
      var values: set<char>, ranges: seq<(int, int)> := {}, [];
      var position := 0;
      while position < |tokens|
        invariant position <= |tokens|
        invariant var rest := GroupTokens(tokens[position..]);
          if GroupTokens(tokens).Ok?
          then rest.Ok? && GroupTokens(tokens).value.0 == values + rest.value.0
            && GroupTokens(tokens).value.1 == ranges + rest.value.1
          else rest.Err?
      {
        var (value, escaped) := tokens[position];
        var rest := tokens[position..];
        assert rest[0] == tokens[position] && rest[1..] == tokens[position + 1..];
        if value == '-' && !escaped {
          return Err(PatternError);
        }
        if position + 1 < |tokens| && tokens[position + 1] == ('-', false) {
          if position + 2 >= |tokens| {
            return Err(PatternError);
          }
          var (end, endEscaped) := tokens[position + 2];
          if escaped || endEscaped || value as int > 0x7F || end as int > 0x7F {
            return Err(PatternError);
          }
          if value > end {
            return Err(PatternError);
          }
          assert rest[3..] == tokens[position + 3..];
          ranges := ranges + [(value as int, end as int)];
          position := position + 3;
          continue;
        }
        values := values + {value};
        position := position + 1;
      }
      assert tokens[position..] == [] && ranges + [] == ranges && values + {} == values;
      return Ok((values, ranges));
    }

    method CharacterClass() returns (r: Result<Node, PatternError>)
      requires index < |pattern| && pattern[index] == '['
      modifies this`index
      ensures Agrees(r, ParseClass(pattern, old(index)))
      ensures r.Ok? ==> ClassText(pattern, old(index), index, r.value)
      ensures r.Err? ==> forall j, node :: !ClassText(pattern, old(index), j, node)
    {
      hide ParseTokens, GroupTokens, TokensText, ItemsSpelled, Members, Ranges, ClassText;
      ClassMeaning(pattern, index);
      index := index + 1;
      var negated := Peek(pattern, index) == Some('^');
      if negated {
        index := index + 1;
      }
      var tokens := ClassTokens();
      if tokens.Err? || tokens.value == [] {
        return Err(PatternError);
      }
      var grouped := Group(tokens.value);
      if grouped.Err? {
        return Err(PatternError);
      }
      return Ok(ClassNode(grouped.value.0, grouped.value.1, negated));
    }

    method Atom() returns (r: Result<Node, PatternError>)
      requires index <= |pattern|
      modifies this`index
      ensures Agrees(r, ParseAtom(pattern, old(index)))
      decreases |pattern| - index, 0
    {
      hide ParseAlternation, ParseClass;
      var current := Peek(pattern, index);
      if current.None? {
        return Err(PatternError);
      }
      if current.value == '.' {
        index := index + 1;
        return Ok(DotNode);
      }
      if current.value == '^' {
        index := index + 1;
        return Ok(AnchorNode(Begin));
      }
      if current.value == '$' {
        index := index + 1;
        return Ok(AnchorNode(End));
      }
      if current.value == '(' {
        index := index + 1;
        var child := Alternation(false, Some(')'));
        if child.Err? || Peek(pattern, index) != Some(')') {
          return Err(PatternError);
        }
        index := index + 1;
        return child;
      }
      if current.value == '[' {
        r := CharacterClass();
        return;
      }
      if current.value == '\\' {
        var escaped := Escaped(false);
        if escaped.Err? {
          return Err(PatternError);
        }
        return Ok(LiteralNode(escaped.value));
      }
      if current.value in META || IsControl(current.value) {
        return Err(PatternError);
      }
      index := index + 1;
      return Ok(LiteralNode(current.value));
    }

    method Quantified() returns (r: Result<Node, PatternError>)
      requires index <= |pattern|
      modifies this`index
      ensures Agrees(r, ParseQuantified(pattern, old(index)))
      decreases |pattern| - index, 1
    {
      hide ParseAtom, ParseQuantifier;
      var atom := Atom();
      if atom.Err? {
        return Err(PatternError);
      }
      if !IsQuantifierStart(Peek(pattern, index)) {
        return atom;
      }
      if atom.value.AnchorNode? {
        return Err(PatternError);
      }
      if ContainsRepeat(atom.value) {
        return Err(PatternError);
      }
      var bounds := Quantifier();
      if bounds.Err? {
        return Err(PatternError);
      }
      if IsQuantifierStart(Peek(pattern, index)) {
        return Err(PatternError);
      }
      return Ok(RepeatNode(atom.value, bounds.value.0, bounds.value.1, bounds.value.2));
    }

    method CheckAnchors(root: bool, children: seq<Node>) returns (ok: bool)
      ensures ok <==> AnchorsPlaced(root, children)
    {
      for position := 0 to |children|
        invariant forall k | 0 <= k < position && children[k].AnchorNode? ::
          root && (children[k].kind.Begin? ==> k == 0) && (children[k].kind.End? ==> k == |children| - 1)
      {
        var child := children[position];
        if child.AnchorNode? {
          if !root || (child.kind.Begin? && position != 0) || (child.kind.End? && position != |children| - 1) {
            return false;
          }
        }
      }
      return true;
    }

    method Alternative(root: bool, terminator: Option<char>) returns (r: Result<Node, PatternError>)
      requires index <= |pattern|
      modifies this`index
      ensures Agrees(r, ParseAlternative(pattern, root, terminator, old(index)))
      decreases |pattern| - index, 3
    {
      hide ParseQuantified, AnchorsPlaced;
      ghost var spec := ParseItems(pattern, terminator, index);
      var children: seq<Node> := [];
      while index < |pattern| && pattern[index] != '|' && terminator != Some(pattern[index])
        invariant old(index) <= index <= |pattern|
        invariant var rest := ParseItems(pattern, terminator, index);
          if spec.Ok?
          then rest.Ok? && spec.value.0 == children + rest.value.0 && spec.value.1 == rest.value.1
          else rest.Err?
        decreases |pattern| - index
      {
        var child := Quantified();
        if child.Err? {
          return Err(PatternError);
        }
        FrontAndRest(children, child.value, ParseItems(pattern, terminator, index));
        children := children + [child.value];
      }
      assert children + [] == children;
      if children == [] {
        return Err(PatternError);
      }
      var ok := CheckAnchors(root, children);
      if !ok {
        return Err(PatternError);
      }
      if |children| == 1 {
        return Ok(children[0]);
      }
      return Ok(ConcatNode(children));
    }

    method Alternation(root: bool, terminator: Option<char>) returns (r: Result<Node, PatternError>)
      requires index <= |pattern|
      modifies this`index
      ensures Agrees(r, ParseAlternation(pattern, root, terminator, old(index)))
      decreases |pattern| - index, 4
    {
      hide ParseAlternative, ParseBranches;
      ghost var spec := ParseBranches(pattern, root, terminator, index);
      BranchesStep(pattern, root, terminator, index);
      var first := Alternative(root, terminator);
      if first.Err? {
        return Err(PatternError);
      }
      var alternatives := [first.value];
      while Peek(pattern, index) == Some('|')
        invariant old(index) < index <= |pattern| && alternatives != []
        invariant Extends(pattern, root, terminator, spec, alternatives, index)
        decreases |pattern| - index
      {
        index := index + 1;
        BranchesStep(pattern, root, terminator, index);
        var next := Alternative(root, terminator);
        if next.Err? {
          return Err(PatternError);
        }
        alternatives := alternatives + [next.value];
      }
      if |alternatives| == 1 {
        return Ok(alternatives[0]);
      }
      return Ok(AlternateNode(alternatives));
    }

    method ParseAll() returns (r: Result<Node, PatternError>)
      requires index == 0
      modifies this`index
      ensures r == Parse(pattern)
    {
      if pattern == "" {
        return Err(PatternError);
      }
      r := Alternation(true, None);
      if r.Err? || index != |pattern| {
        return Err(PatternError);
      }
    }
  }

  // The branches parsed so far and those still ahead make up the specification's.
  ghost predicate Extends(p: string, root: bool, terminator: Option<char>, spec: Parsed<seq<Node>>, branches: seq<Node>,
          index: nat)
  {
    if Peek(p, index) == Some('|') then
      var rest := ParseBranches(p, root, terminator, index + 1);
      if spec.Ok?
      then rest.Ok? && spec.value.0 == branches + rest.value.0 && spec.value.1 == rest.value.1
      else rest.Err?
    else spec.Ok? && spec.value.0 == branches && spec.value.1 == index
  }

  lemma BranchesStep(p: string, root: bool, terminator: Option<char>, i: nat)
    requires i <= |p|
    ensures var branch, branches := ParseAlternative(p, root, terminator, i), ParseBranches(p, root, terminator, i);
      if branch.Err? then branches.Err?
      else if Peek(p, branch.value.1) != Some('|') then
        branches.Ok? && branches.value.0 == [branch.value.0] && branches.value.1 == branch.value.1
      else
        var rest := ParseBranches(p, root, terminator, branch.value.1 + 1);
        if rest.Err? then branches.Err?
        else branches.Ok? && branches.value.0 == [branch.value.0] + rest.value.0 && branches.value.1 == rest.value.1
  {
    hide ParseAlternative;
  }

  // ---------------------------------------------------------------------
  // compile_pattern
  // ---------------------------------------------------------------------

  datatype CompileError = SyntaxError | LimitError

  method CompilePattern(pattern: string, maxLength: nat, maxStates: nat)
    returns (r: Result<CompiledPattern, CompileError>)
    ensures |pattern| > maxLength ==> r == Err(LimitError)
    ensures |pattern| <= maxLength && Parse(pattern).Err? ==> r == Err(SyntaxError)
    ensures |pattern| <= maxLength && Parse(pattern).Ok? ==>
      var node := Parse(pattern).value;
      r == if StateCount(node) + 1 > maxStates then Err(LimitError)
           else Ok(CompiledPattern(pattern, Machine(node), MachineStart(node)))
  {
    if |pattern| > maxLength {
      return Err(LimitError);
    }
    var parser := new Parser(pattern);
    var parsed := parser.ParseAll();
    if parsed.Err? {
      return Err(SyntaxError);
    }
    var node := parsed.value;
    ParsedIsWellFormed(pattern);
    var stateCount := StateCount(node) + 1;
    if stateCount > maxStates {
      return Err(LimitError);
    }
    var compiler := new Compiler();
    var start := compiler.Compile(node);
    MachineIsLinked(node);
    if |compiler.states| != stateCount {
      assert false; // the count invariant cannot fail
    }
    return Ok(CompiledPattern(pattern, compiler.states, start));
  }

  // The engine, end to end: a pattern string has at most one reading, its
  // machine is linked and its search decides that reading.
  lemma {:induction false} EngineDecidesPattern(pattern: string, node: Node, value: string)
    requires AlternationText(pattern, true, 0, |pattern|, node)
    ensures Parse(pattern) == Ok(node) && WellFormed(node) && Regular(node)
    ensures Linked(Machine(node)) && MachineStart(node) < |Machine(node)| == StateCount(node) + 1
    ensures AcceptsFrom(Machine(node), value, MachineStart(node), 0) <==> Matches(node, false, value)
    ensures Forgiving(node) ==>
      (AcceptsFrom(Machine(node), value, MachineStart(node), 0) <==> Matches(node, true, value))
  {
    ParseIffGrammar(pattern, node);
    ParsedIsWellFormed(pattern);
    MachineIsLinked(node);
    SearchDecidesPattern(node, value);
    if Forgiving(node) {
      SearchDecidesDocumentedMeaning(node, value);
    }
  }

  // ---------------------------------------------------------------------
  // A pattern that the engine gets wrong
  // ---------------------------------------------------------------------

  const DEAD_BRANCH_PATTERN := "a{0}|b"

  const DEAD_BRANCH: Node := RepeatNode(LiteralNode('a'), 0, Some(0), false)

  const DEAD_BRANCH_TREE: Node := AlternateNode([DEAD_BRANCH, LiteralNode('b')])

  lemma DeadBranchIsSpelled()
    ensures AlternationText(DEAD_BRANCH_PATTERN, true, 0, |DEAD_BRANCH_PATTERN|, DEAD_BRANCH_TREE)
  {
    hide ClassText;
    var p, dead, live := DEAD_BRANCH_PATTERN, DEAD_BRANCH, LiteralNode('b');
    assert p[1..4] == "{" + Numeral(0) + "}" by {
      assert Numeral(0) == ['0'];
    }
    RepeatText(p, 0, 1, 4, dead);
    ItemsCons(p, 0, 4, 4, dead, []);
    assert [dead] + [] == [dead];
    ItemsCons(p, 5, 6, 6, live, []);
    assert [live] + [] == [live];
    BranchesCons(p, true, 0, 4, 6, dead, [live]);
    assert [dead] + [live] == [dead, live];
  }

  lemma DeadBranchSpans()
    requires Regular(DEAD_BRANCH_TREE)
    ensures Spans(DEAD_BRANCH_TREE, true, "", 0, 0) && !PatternMachineDecides(DEAD_BRANCH_TREE, "", true)
  {
    hide PatternMachineDecides, Spans, SpansAny;
    var branches := DEAD_BRANCH_TREE.children;
    assert StateCount(branches[0]) == 0 && branches[1] == LiteralNode('b');
    DeadBranchMissesEmpty(branches);
    assert Held("", 0) == {Begin, End};
    DeadAlternationMisses(branches, "", 0);
  }

  // The engine compiles `a{0}|b` and does not find it in the empty string,
  // which it matches as documented.
  lemma DeadBranchCounterexample()
    ensures Parse(DEAD_BRANCH_PATTERN) == Ok(DEAD_BRANCH_TREE) && Regular(DEAD_BRANCH_TREE)
    ensures Matches(DEAD_BRANCH_TREE, true, "")
    ensures !AcceptsFrom(Machine(DEAD_BRANCH_TREE), "", MachineStart(DEAD_BRANCH_TREE), 0)
  {
    hide AlternationText, Parse, Machine, MachineStart, AcceptsFrom, Spans, SpansAny, Forgiving;
    DeadBranchIsSpelled();
    EngineDecidesPattern(DEAD_BRANCH_PATTERN, DEAD_BRANCH_TREE, "");
    DeadBranchSpans();
    SpanMatches(DEAD_BRANCH_TREE, true, "", 0, 0);
  }

  // compile_pattern followed by search.
  method SearchPattern(pattern: string, maxLength: nat, maxStates: nat, value: string, maxOperations: int)
    returns (r: Result<bool, CompileError>)
    ensures r.Ok? ==> Parse(pattern).Ok? && (r.value <==> Matches(Parse(pattern).value, false, value))
    ensures r.Ok? ==> IsRightAnswer(pattern, value, r.value)
    ensures (&& |pattern| <= maxLength && Parse(pattern).Ok? && StateCount(Parse(pattern).value) + 1 <= maxStates
             && OperationBound(|value|, |Machine(Parse(pattern).value)|) <= maxOperations)
      ==> r.Ok?
  {
    hide IsRightAnswer;
    var compiled := CompilePattern(pattern, maxLength, maxStates);
    if compiled.Err? {
      return Err(compiled.error);
    }
    ParsedIsWellFormed(pattern);
    MachineIsLinked(Parse(pattern).value);
    SearchDecidesPattern(Parse(pattern).value, value);
    MatchesIsRight(pattern, false, value);
    var found := Search(compiled.value, value, maxOperations);
    if found.Err? {
      return Err(LimitError);
    }
    return Ok(found.value);
  }
}
