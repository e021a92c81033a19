/** The concrete syntax as a grammar, and the parser's agreement with it. */
module PatternGrammar {
  import opened Wrappers
  import opened PatternSyntax
  import opened Decimal
  import opened PatternParser
  import opened PatternClass

  // ---------------------------------------------------------------------
  // The grammar: p[i..j] spells the node
  // ---------------------------------------------------------------------

  // ? * + {m} {m,} {m,n}, with canonical numerals up to 1000.
  predicate QuantifierText(text: string, bounds: Bounds) {
    var (minimum, maximum, copy) := bounds;
    || (text == "?" && bounds == (0, Some(1), false))
    || (text == "*" && bounds == (0, None, false))
    || (text == "+" && bounds == (1, None, false))
    || (minimum <= 1000 && text == "{" + Numeral(minimum) + "}" && bounds == (minimum, Some(minimum), false))
    || (minimum <= 1000 && text == "{" + Numeral(minimum) + ",}" && bounds == (minimum, None, true))
    || (maximum.Some? && minimum <= maximum.value <= 1000 && !copy
        && text == "{" + Numeral(minimum) + "," + Numeral(maximum.value) + "}")
  }

  ghost predicate AtomText(p: string, i: nat, j: nat, node: Node)
    decreases if j > i then j - i else 0, 0
  {
    i < j <= |p| &&
    (|| (j == i + 1 && p[i] == '.' && node == DotNode)
     || (j == i + 1 && p[i] == '^' && node == AnchorNode(Begin))
     || (j == i + 1 && p[i] == '$' && node == AnchorNode(End))
     || (j >= i + 2 && p[i] == '(' && p[j - 1] == ')' && AlternationText(p, false, i + 1, j - 1, node))
     || ClassText(p, i, j, node)
     || (j == i + 2 && p[i] == '\\' && p[i + 1] in ESCAPES && p[i + 1] != '-' && node == LiteralNode(ESCAPES[p[i + 1]]))
     || (j == i + 1 && p[i] !in META && !IsControl(p[i]) && node == LiteralNode(p[i])))
  }

  ghost predicate QuantifiedText(p: string, i: nat, j: nat, node: Node)
    decreases if j > i then j - i else 0, 1
  {
    i < j <= |p| &&
    (AtomText(p, i, j, node)
     || (node.RepeatNode? && !node.child.AnchorNode? && !ContainsRepeat(node.child) && exists k: nat | i < k < j ::
           AtomText(p, i, k, node.child)
           && QuantifierText(p[k..j], (node.minimum, node.maximum, node.copyForUnbounded))))
  }

  ghost predicate ItemsText(p: string, i: nat, j: nat, items: seq<Node>)
    decreases if j > i then j - i else 0, 2, |items|
  {
    i <= j <= |p| &&
    if items == [] then i == j
    else exists k: nat | i < k <= j :: QuantifiedText(p, i, k, items[0]) && ItemsText(p, k, j, items[1..])
  }

  ghost predicate AlternativeText(p: string, root: bool, i: nat, j: nat, node: Node)
    decreases if j > i then j - i else 0, 3
  {
    || (AnchorsPlaced(root, [node]) && ItemsText(p, i, j, [node]))
    || (node.ConcatNode? && |node.children| >= 2 && AnchorsPlaced(root, node.children)
          && ItemsText(p, i, j, node.children))
  }

  ghost predicate BranchesText(p: string, root: bool, i: nat, j: nat, branches: seq<Node>)
    decreases if j > i then j - i else 0, 4
  {
    i < j <= |p| && branches != [] &&
    if |branches| == 1 then AlternativeText(p, root, i, j, branches[0])
    else exists k: nat | i < k < j ::
      (AlternativeText(p, root, i, k, branches[0]) && p[k] == '|' && BranchesText(p, root, k + 1, j, branches[1..]))
  }

  ghost predicate AlternationText(p: string, root: bool, i: nat, j: nat, node: Node)
    decreases if j > i then j - i else 0, 5
  {
    || BranchesText(p, root, i, j, [node])
    || (node.AlternateNode? && |node.children| >= 2 && BranchesText(p, root, i, j, node.children))
  }

  // ---------------------------------------------------------------------
  // Quantifiers: scanning inverts spelling
  // ---------------------------------------------------------------------

  // The run of digits ends where a numeral followed by a non-digit ends.
  lemma {:induction false} DigitsEndAt(p: string, i: nat, j: nat)
    requires i <= j <= |p| && AllDigits(p[i..j]) && (j < |p| ==> !IsDigit(p[j]))
    ensures DigitsEnd(p, i) == j
    decreases j - i
  {
    if i < j {
      assert p[i..j][0] == p[i] && p[i..j][1..] == p[i + 1..j];
      DigitsEndAt(p, i + 1, j);
    }
  }

  lemma {:induction false} DecimalSound(p: string, i: nat)
    requires i <= |p| && ParseDecimal(p, i).Ok?
    ensures var (n, j) := ParseDecimal(p, i).value;
      n <= 1000 && p[i..j] == Numeral(n) && (j < |p| ==> !IsDigit(p[j]))
  {
    CanonicalIsNumeral(p[i..DigitsEnd(p, i)]);
  }

  lemma {:induction false} DecimalComplete(p: string, i: nat, j: nat, n: nat)
    requires i <= j < |p| && p[i..j] == Numeral(n) && n <= 1000 && !IsDigit(p[j])
    ensures ParseDecimal(p, i) == Ok((n, j))
  {
    DigitsEndAt(p, i, j);
    NumeralIsCanonical(n);
  }

  lemma Slice(p: string, i: nat, j: nat, a: nat, b: nat)
    requires i <= j <= |p| && a <= b <= j - i
    ensures p[i..j][a..b] == p[i + a..i + b]
  {
    var whole := p[i..j];
    assert forall k | 0 <= k < b - a :: whole[a..b][k] == whole[a + k] == p[i + a + k];
  }

  lemma {:induction false} QuantifierSound(p: string, i: nat)
    requires i < |p| && IsQuantifierStart(Some(p[i])) && ParseQuantifier(p, i).Ok?
    ensures QuantifierText(p[i..ParseQuantifier(p, i).value.1], ParseQuantifier(p, i).value.0)
  {
    if p[i] == '{' {
      BracesSound(p, i);
    } else {
      assert p[i..i + 1] == [p[i]];
    }
  }

  lemma {:induction false} BracesSound(p: string, i: nat)
    requires i < |p| && p[i] == '{' && ParseQuantifier(p, i).Ok?
    ensures QuantifierText(p[i..ParseQuantifier(p, i).value.1], ParseQuantifier(p, i).value.0)
  {
    hide ParseDecimal, Numeral;
    var (bounds, end) := ParseQuantifier(p, i).value;
    DecimalSound(p, i + 1);
    var (minimum, j) := ParseDecimal(p, i + 1).value;
    if Peek(p, j) == Some('}') {
      assert p[i..end] == "{" + p[i + 1..j] + "}";
    } else if Peek(p, j + 1) == Some('}') {
      assert p[i..end] == "{" + p[i + 1..j] + ",}";
    } else {
      DecimalSound(p, j + 1);
      var (maximum, k) := ParseDecimal(p, j + 1).value;
      assert p[i..end] == "{" + p[i + 1..j] + "," + p[j + 1..k] + "}";
    }
  }

  lemma {:induction false} QuantifierComplete(p: string, i: nat, j: nat, bounds: Bounds)
    requires i < j <= |p| && QuantifierText(p[i..j], bounds)
    ensures ParseQuantifier(p, i) == Ok((bounds, j)) && IsQuantifierStart(Some(p[i]))
  {
    hide ParseDecimal, Numeral, ParseQuantifier;
    var text := p[i..j];
    var (minimum, maximum, copy) := bounds;
    assert text[0] == p[i];
    if text == "?" || text == "*" || text == "+" {
      SymbolComplete(p, i);
    } else if text == "{" + Numeral(minimum) + "}" && bounds == (minimum, Some(minimum), false) {
      ExactComplete(p, i, j, minimum);
    } else if text == "{" + Numeral(minimum) + ",}" && bounds == (minimum, None, true) {
      OpenComplete(p, i, j, minimum);
    } else {
      RangeComplete(p, i, j, minimum, maximum.value);
    }
  }

  lemma SymbolComplete(p: string, i: nat)
    requires i < |p| && p[i] in "?*+"
    ensures ParseQuantifier(p, i) ==
      Ok((if p[i] == '?' then (0, Some(1), false) else if p[i] == '*' then (0, None, false) else (1, None, false),
          i + 1))
  {
  }

  lemma {:induction false} ExactComplete(p: string, i: nat, j: nat, minimum: nat)
    requires i < j <= |p| && minimum <= 1000 && p[i..j] == "{" + Numeral(minimum) + "}"
    ensures p[i] == '{' && ParseQuantifier(p, i) == Ok(((minimum, Some(minimum), false), j))
  {
    hide ParseDecimal, Numeral;
    CountComplete(p, i, j, minimum, "}");
  }

  lemma {:induction false} OpenComplete(p: string, i: nat, j: nat, minimum: nat)
    requires i < j <= |p| && minimum <= 1000 && p[i..j] == "{" + Numeral(minimum) + ",}"
    ensures p[i] == '{' && ParseQuantifier(p, i) == Ok(((minimum, None, true), j))
  {
    hide ParseDecimal, Numeral;
    CountComplete(p, i, j, minimum, ",}");
    var c := i + 1 + |Numeral(minimum)|;
    assert p[c + 1] == ",}"[1];
  }

  lemma {:induction false} RangeComplete(p: string, i: nat, j: nat, minimum: nat, maximum: nat)
    requires i < j <= |p| && minimum <= maximum <= 1000
    requires p[i..j] == "{" + Numeral(minimum) + "," + Numeral(maximum) + "}"
    ensures p[i] == '{' && ParseQuantifier(p, i) == Ok(((minimum, Some(maximum), false), j))
  {
    hide ParseDecimal, Numeral, ParseQuantifier;
    var rest := "," + Numeral(maximum) + "}";
    assert p[i..j] == "{" + Numeral(minimum) + rest;
    CountComplete(p, i, j, minimum, rest);
    var c := i + 1 + |Numeral(minimum)|;
    RangeTail(p, c, j, maximum);
    QuantifierRange(p, i, c, j, minimum, maximum);
  }

  // The second bound and the closing brace.
  lemma RangeTail(p: string, c: nat, j: nat, maximum: nat)
    requires c < j <= |p| && maximum <= 1000 && p[c..j] == "," + Numeral(maximum) + "}"
    ensures c + 2 < j && p[c] == ',' && p[j - 1] == '}' && p[c + 1] != '}'
    ensures ParseDecimal(p, c + 1) == Ok((maximum, j - 1))
  {
    hide ParseDecimal, Numeral;
    var numeral := Numeral(maximum);
    var rest := "," + numeral + "}";
    Slice(p, c, j, 1, |rest| - 1);
    assert rest[1..|rest| - 1] == numeral;
    assert p[c..j][0] == p[c] && p[c..j][1] == p[c + 1] && p[c..j][|rest| - 1] == p[j - 1];
    assert rest[1] == numeral[0] && IsDigit(numeral[0]);
    DecimalComplete(p, c + 1, j - 1, maximum);
  }

  lemma QuantifierRange(p: string, i: nat, c: nat, j: nat, minimum: nat, maximum: nat)
    requires i + 1 < c && c + 2 < j <= |p| && p[i] == '{' && p[c] == ',' && p[c + 1] != '}' && p[j - 1] == '}'
    requires ParseDecimal(p, i + 1) == Ok((minimum, c)) && ParseDecimal(p, c + 1) == Ok((maximum, j - 1))
    requires minimum <= maximum
    ensures ParseQuantifier(p, i) == Ok(((minimum, Some(maximum), false), j))
  {
    hide ParseDecimal;
  }

  // The first bound is scanned, and what follows it is in place.
  lemma {:induction false} CountComplete(p: string, i: nat, j: nat, n: nat, rest: string)
    requires i < j <= |p| && n <= 1000 && p[i..j] == "{" + Numeral(n) + rest
    requires rest != "" && !IsDigit(rest[0])
    ensures var c := i + 1 + |Numeral(n)|;
      && c < |p| && p[i] == '{' && ParseDecimal(p, i + 1) == Ok((n, c))
      && c + |rest| == j && p[c..j] == rest && forall k | 0 <= k < |rest| :: p[c + k] == rest[k]
  {
    hide ParseDecimal, Numeral;
    var numeral := Numeral(n);
    var c, text := i + 1 + |numeral|, p[i..j];
    assert text[0] == p[i] && text[1..1 + |numeral|] == numeral && text[1 + |numeral|..|text|] == rest;
    Slice(p, i, j, 1, 1 + |numeral|);
    Slice(p, i, j, 1 + |numeral|, |text|);
    assert forall k | 0 <= k < |rest| :: p[c + k] == p[c..j][k];
    assert p[c] == rest[0];
    DecimalComplete(p, i + 1, c, n);
  }

  // ---------------------------------------------------------------------
  // Soundness: what the parser returns is spelled by what it consumed
  // ---------------------------------------------------------------------

  lemma {:induction false} AtomSound(p: string, i: nat)
    requires ParseAtom(p, i).Ok?
    ensures AtomText(p, i, ParseAtom(p, i).value.1, ParseAtom(p, i).value.0)
    decreases |p| - i, 0
  {
    hide ParseClass, ClassText;
    if p[i] == '(' {
      AlternationSound(p, false, Some(')'), i + 1);
    } else if p[i] == '[' {
      ClassSound(p, i);
    }
  }

  lemma {:induction false} QuantifiedSound(p: string, i: nat)
    requires i <= |p| && ParseQuantified(p, i).Ok?
    ensures QuantifiedText(p, i, ParseQuantified(p, i).value.1, ParseQuantified(p, i).value.0)
    decreases |p| - i, 1
  {
    hide AtomText, ParseAtom, QuantifierText, ParseQuantifier;
    AtomSound(p, i);
    var (atom, j) := ParseAtom(p, i).value;
    if IsQuantifierStart(Peek(p, j)) {
      QuantifierSound(p, j);
      var (bounds, end) := ParseQuantifier(p, j).value;
      assert bounds == (bounds.0, bounds.1, bounds.2);
      RepeatText(p, i, j, end, RepeatNode(atom, bounds.0, bounds.1, bounds.2));
    }
  }

  lemma RepeatText(p: string, i: nat, k: nat, j: nat, node: Node)
    requires i < k < j <= |p| && node.RepeatNode? && !node.child.AnchorNode? && !ContainsRepeat(node.child)
    requires AtomText(p, i, k, node.child)
      && QuantifierText(p[k..j], (node.minimum, node.maximum, node.copyForUnbounded))
    ensures QuantifiedText(p, i, j, node)
  {
    hide AtomText, QuantifierText, ContainsRepeat;
  }

  lemma {:induction false} ItemsSound(p: string, terminator: Option<char>, i: nat)
    requires i <= |p| && ParseItems(p, terminator, i).Ok?
    ensures ItemsText(p, i, ParseItems(p, terminator, i).value.1, ParseItems(p, terminator, i).value.0)
    decreases |p| - i, 2
  {
    hide QuantifiedText, ParseQuantified;
    if !(i == |p| || p[i] == '|' || terminator == Some(p[i])) {
      QuantifiedSound(p, i);
      var (item, k) := ParseQuantified(p, i).value;
      ItemsSound(p, terminator, k);
      var (rest, j) := ParseItems(p, terminator, k).value;
      assert ([item] + rest)[1..] == rest;
      ItemsCons(p, i, k, j, item, rest);
    }
  }

  lemma ItemsCons(p: string, i: nat, k: nat, j: nat, item: Node, rest: seq<Node>)
    requires i < k <= j && QuantifiedText(p, i, k, item) && ItemsText(p, k, j, rest)
    ensures ItemsText(p, i, j, [item] + rest)
  {
    hide QuantifiedText;
    assert ([item] + rest)[1..] == rest && ([item] + rest)[0] == item;
  }

  lemma {:induction false} AlternativeSound(p: string, root: bool, terminator: Option<char>, i: nat)
    requires i <= |p| && ParseAlternative(p, root, terminator, i).Ok?
    ensures AlternativeText(p, root, i, ParseAlternative(p, root, terminator, i).value.1,
      ParseAlternative(p, root, terminator, i).value.0)
    decreases |p| - i, 3
  {
    hide ItemsText, ParseItems;
    ItemsSound(p, terminator, i);
    var (items, j) := ParseItems(p, terminator, i).value;
    if |items| == 1 { assert items == [items[0]]; }
  }

  lemma {:induction false} BranchesSound(p: string, root: bool, terminator: Option<char>, i: nat)
    requires i <= |p| && ParseBranches(p, root, terminator, i).Ok?
    ensures BranchesText(p, root, i, ParseBranches(p, root, terminator, i).value.1,
      ParseBranches(p, root, terminator, i).value.0)
    decreases |p| - i, 4
  {
    hide AlternativeText, ParseAlternative;
    AlternativeSound(p, root, terminator, i);
    var (branch, k) := ParseAlternative(p, root, terminator, i).value;
    if Peek(p, k) == Some('|') {
      BranchesSound(p, root, terminator, k + 1);
      var (rest, j) := ParseBranches(p, root, terminator, k + 1).value;
      BranchesCons(p, root, i, k, j, branch, rest);
    }
  }

  lemma BranchesCons(p: string, root: bool, i: nat, k: nat, j: nat, branch: Node, rest: seq<Node>)
    requires i < k < j <= |p| && AlternativeText(p, root, i, k, branch) && p[k] == '|'
      && BranchesText(p, root, k + 1, j, rest)
    ensures BranchesText(p, root, i, j, [branch] + rest)
  {
    hide AlternativeText;
    assert ([branch] + rest)[1..] == rest && ([branch] + rest)[0] == branch;
  }

  lemma {:induction false} AlternationSound(p: string, root: bool, terminator: Option<char>, i: nat)
    requires i <= |p| && ParseAlternation(p, root, terminator, i).Ok?
    ensures AlternationText(p, root, i, ParseAlternation(p, root, terminator, i).value.1,
      ParseAlternation(p, root, terminator, i).value.0)
    decreases |p| - i, 5
  {
    hide BranchesText, ParseBranches;
    BranchesSound(p, root, terminator, i);
    var (branches, j) := ParseBranches(p, root, terminator, i).value;
    if |branches| == 1 { assert branches == [branches[0]]; }
  }

  // ---------------------------------------------------------------------
  // Completeness: every spelling is parsed, and as that node
  // ---------------------------------------------------------------------

  // Elimination rules for the grammar's existentials.
  lemma ItemsSplit(p: string, i: nat, j: nat, items: seq<Node>) returns (k: nat)
    requires items != [] && ItemsText(p, i, j, items)
    ensures i < k <= j <= |p| && QuantifiedText(p, i, k, items[0]) && ItemsText(p, k, j, items[1..])
  {
    k :| i < k <= j && QuantifiedText(p, i, k, items[0]) && ItemsText(p, k, j, items[1..]);
  }

  lemma BranchesSplit(p: string, root: bool, i: nat, j: nat, branches: seq<Node>) returns (k: nat)
    requires |branches| > 1 && BranchesText(p, root, i, j, branches)
    ensures i < k < j <= |p| && AlternativeText(p, root, i, k, branches[0]) && p[k] == '|'
    ensures BranchesText(p, root, k + 1, j, branches[1..])
  {
    k :| i < k < j && AlternativeText(p, root, i, k, branches[0]) && p[k] == '|'
      && BranchesText(p, root, k + 1, j, branches[1..]);
  }

  lemma QuantifiedSplit(p: string, i: nat, j: nat, node: Node) returns (k: nat)
    requires QuantifiedText(p, i, j, node) && !AtomText(p, i, j, node)
    ensures node.RepeatNode? && !node.child.AnchorNode? && !ContainsRepeat(node.child) && i < k < j <= |p|
    ensures AtomText(p, i, k, node.child)
      && QuantifierText(p[k..j], (node.minimum, node.maximum, node.copyForUnbounded))
  {
    k :| i < k < j && AtomText(p, i, k, node.child)
      && QuantifierText(p[k..j], (node.minimum, node.maximum, node.copyForUnbounded));
  }

  // An atom never starts like a quantifier, a separator or a closing parenthesis.
  lemma AtomStart(p: string, i: nat, j: nat, node: Node)
    requires AtomText(p, i, j, node)
    ensures i < j <= |p| && !IsQuantifierStart(Some(p[i])) && p[i] != '|' && p[i] != ')'
  {
  }

  lemma QuantifiedStart(p: string, i: nat, j: nat, node: Node)
    requires QuantifiedText(p, i, j, node)
    ensures i < j <= |p| && !IsQuantifierStart(Some(p[i])) && p[i] != '|' && p[i] != ')'
  {
    hide AtomText, QuantifierText;
    if AtomText(p, i, j, node) {
      AtomStart(p, i, j, node);
    } else {
      var k := QuantifiedSplit(p, i, j, node);
      AtomStart(p, i, k, node.child);
    }
  }

  predicate IsTerminator(terminator: Option<char>) {
    terminator == None || terminator == Some(')')
  }

  // Where an alternative may stop.
  predicate Stops(p: string, terminator: Option<char>, j: nat) {
    j == |p| || (j < |p| && (p[j] == '|' || terminator == Some(p[j])))
  }

  lemma {:induction false} AtomComplete(p: string, i: nat, j: nat, node: Node)
    requires AtomText(p, i, j, node)
    ensures ParseAtom(p, i) == Ok((node, j))
    decreases j - i, 0
  {
    hide ParseClass, ClassText;
    if ClassText(p, i, j, node) {
      ClassBrackets(p, i, j, node);
      ClassComplete(p, i, j, node);
    } else if p[i] == '(' && j >= i + 2 && p[j - 1] == ')' && AlternationText(p, false, i + 1, j - 1, node) {
      AlternationComplete(p, false, Some(')'), i + 1, j - 1, node);
    }
  }

  lemma {:induction false} QuantifiedComplete(p: string, i: nat, j: nat, node: Node)
    requires QuantifiedText(p, i, j, node) && !IsQuantifierStart(Peek(p, j))
    ensures ParseQuantified(p, i) == Ok((node, j))
    decreases if j > i then j - i else 0, 1
  {
    hide AtomText, ParseAtom, QuantifierText, ParseQuantifier;
    if AtomText(p, i, j, node) {
      AtomComplete(p, i, j, node);
    } else {
      var k := QuantifiedSplit(p, i, j, node);
      AtomComplete(p, i, k, node.child);
      QuantifierComplete(p, k, j, (node.minimum, node.maximum, node.copyForUnbounded));
    }
  }

  lemma {:induction false} ItemsComplete(p: string, terminator: Option<char>, i: nat, j: nat, items: seq<Node>)
    requires ItemsText(p, i, j, items) && IsTerminator(terminator) && Stops(p, terminator, j)
    ensures ParseItems(p, terminator, i) == Ok((items, j))
    decreases if j > i then j - i else 0, 2, |items|
  {
    hide QuantifiedText, ParseQuantified;
    if items != [] {
      var k := ItemsSplit(p, i, j, items);
      QuantifiedStart(p, i, k, items[0]);
      ItemsComplete(p, terminator, k, j, items[1..]);
      if items[1..] != [] {
        var h := ItemsSplit(p, k, j, items[1..]);
        QuantifiedStart(p, k, h, items[1]);
      }
      QuantifiedComplete(p, i, k, items[0]);
      assert items == [items[0]] + items[1..];
    }
  }

  lemma {:induction false} AlternativeComplete(p: string, root: bool, terminator: Option<char>, i: nat, j: nat,
          node: Node)
    requires AlternativeText(p, root, i, j, node) && IsTerminator(terminator) && Stops(p, terminator, j) && i < j
    ensures ParseAlternative(p, root, terminator, i) == Ok((node, j))
    decreases if j > i then j - i else 0, 3
  {
    hide ItemsText, ParseItems;
    if AnchorsPlaced(root, [node]) && ItemsText(p, i, j, [node]) {
      ItemsComplete(p, terminator, i, j, [node]);
      ItemsInside(p, i, j, [node]);
    } else {
      ItemsComplete(p, terminator, i, j, node.children);
      ItemsInside(p, i, j, node.children);
    }
  }

  lemma ItemsInside(p: string, i: nat, j: nat, items: seq<Node>)
    requires ItemsText(p, i, j, items)
    ensures i <= j <= |p|
  {
  }

  lemma {:induction false} BranchesComplete(p: string, root: bool, terminator: Option<char>, i: nat, j: nat,
          branches: seq<Node>)
    requires BranchesText(p, root, i, j, branches) && IsTerminator(terminator)
    requires Stops(p, terminator, j) && Peek(p, j) != Some('|')
    ensures ParseBranches(p, root, terminator, i) == Ok((branches, j))
    decreases if j > i then j - i else 0, 4
  {
    hide AlternativeText, ParseAlternative;
    if |branches| == 1 {
      AlternativeComplete(p, root, terminator, i, j, branches[0]);
      assert branches == [branches[0]];
    } else {
      var k := BranchesSplit(p, root, i, j, branches);
      AlternativeComplete(p, root, terminator, i, k, branches[0]);
      BranchesComplete(p, root, terminator, k + 1, j, branches[1..]);
      assert branches == [branches[0]] + branches[1..];
    }
  }

  lemma {:induction false} AlternationComplete(p: string, root: bool, terminator: Option<char>, i: nat, j: nat,
          node: Node)
    requires AlternationText(p, root, i, j, node) && IsTerminator(terminator)
    requires Stops(p, terminator, j) && Peek(p, j) != Some('|')
    ensures i < j <= |p| && ParseAlternation(p, root, terminator, i) == Ok((node, j))
    decreases if j > i then j - i else 0, 5
  {
    hide ParseBranches;
    if BranchesText(p, root, i, j, [node]) {
      BranchesComplete(p, root, terminator, i, j, [node]);
    } else {
      BranchesComplete(p, root, terminator, i, j, node.children);
    }
  }

  // The parser accepts exactly the spellings of the grammar, each as the one
  // node that it spells.
  lemma {:induction false} ParseIffGrammar(p: string, node: Node)
    ensures Parse(p) == Ok(node) <==> AlternationText(p, true, 0, |p|, node)
  {
    if Parse(p) == Ok(node) {
      AlternationSound(p, true, None, 0);
    }
    if AlternationText(p, true, 0, |p|, node) {
      AlternationComplete(p, true, None, 0, |p|, node);
    }
  }
}
