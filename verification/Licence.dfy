/** The SPDX expression recogniser of the licence profile (src/makoto/licence.py),
    from the token sequence on. */
module Licence {
  import opened Wrappers

  // Operators are never identifiers: the tokeniser tries AND, OR and WITH first.
  datatype Token = Open | Close | And | Or | With | Identifier(text: string)

  datatype SpdxError = EmptyExpression | UnexpectedEnd | UnexpectedToken | ExpectedIdentifier | ExpectedException

  predicate NamesLocalLicence(text: string) {
    exists k | 0 <= k <= |text| :: "LicenseRef-" <= text[k..]
  }

  // The token behind WITH: the operators have the shape of identifiers too.
  predicate IsException(t: Token) {
    match t
    case Open => false
    case Close => false
    case Identifier(text) => !NamesLocalLicence(text)
    case _ => true
  }

  // ---------------------------------------------------------------------
  // The grammar: ts[i..j] is a primary, a conjunction, a disjunction
  // ---------------------------------------------------------------------

  predicate IsPrimary(ts: seq<Token>, i: nat, j: nat)
    requires i <= j <= |ts|
    decreases j - i, 0
  {
    || (j == i + 1 && ts[i].Identifier?)
    || (j == i + 3 && ts[i].Identifier? && ts[i + 1] == With && IsException(ts[i + 2]))
    || (i + 2 <= j && ts[i] == Open && ts[j - 1] == Close && IsDisjunction(ts, i + 1, j - 1))
  }

  // Primaries joined by AND.
  predicate IsConjunction(ts: seq<Token>, i: nat, j: nat)
    requires i <= j <= |ts|
    decreases j - i, 1
  {
    || IsPrimary(ts, i, j)
    || (exists k | i < k < j :: IsPrimary(ts, i, k) && ts[k] == And && IsConjunction(ts, k + 1, j))
  }

  // Conjunctions joined by OR.
  predicate IsDisjunction(ts: seq<Token>, i: nat, j: nat)
    requires i <= j <= |ts|
    decreases j - i, 2
  {
    || IsConjunction(ts, i, j)
    || (exists k | i < k < j :: IsConjunction(ts, i, k) && ts[k] == Or && IsDisjunction(ts, k + 1, j))
  }

  // ---------------------------------------------------------------------
  // The position behind what the three routines consume
  // ---------------------------------------------------------------------

  predicate At(ts: seq<Token>, i: nat, t: Token) {
    i < |ts| && ts[i] == t
  }

  function Primary(ts: seq<Token>, i: nat): (r: Result<nat, SpdxError>)
    requires i <= |ts|
    ensures r.Ok? ==> i < r.value <= |ts|
    decreases |ts| - i, 0
  {
    if At(ts, i, Open) then
      match Disjunction(ts, i + 1)
      case Err(e) => Err(e)
      case Ok(j) => if j == |ts| then Err(UnexpectedEnd) else if ts[j] != Close then Err(UnexpectedToken) else Ok(j + 1)
    else if i == |ts| || !ts[i].Identifier? then Err(ExpectedIdentifier)
    else if !At(ts, i + 1, With) then Ok(i + 1)
    else if i + 2 == |ts| then Err(UnexpectedEnd)
    else if !IsException(ts[i + 2]) then Err(ExpectedException)
    else Ok(i + 3)
  }

  function Conjunction(ts: seq<Token>, i: nat): (r: Result<nat, SpdxError>)
    requires i <= |ts|
    ensures r.Ok? ==> i < r.value <= |ts|
    decreases |ts| - i, 1
  {
    match Primary(ts, i)
    case Err(e) => Err(e)
    case Ok(k) => if At(ts, k, And) then Conjunction(ts, k + 1) else Ok(k)
  }

  function Disjunction(ts: seq<Token>, i: nat): (r: Result<nat, SpdxError>)
    requires i <= |ts|
    ensures r.Ok? ==> i < r.value <= |ts|
    decreases |ts| - i, 2
  {
    match Conjunction(ts, i)
    case Err(e) => Err(e)
    case Ok(k) => if At(ts, k, Or) then Disjunction(ts, k + 1) else Ok(k)
  }

  // validate_spdx_expression behind the tokeniser.
  function Validated(ts: seq<Token>): Result<(), SpdxError> {
    if ts == [] then Err(EmptyExpression)
    else
      match Disjunction(ts, 0)
      case Err(e) => Err(e)
      case Ok(j) => if j == |ts| then Ok(()) else Err(UnexpectedToken)
  }

  // ---------------------------------------------------------------------
  // The recogniser accepts the grammar
  // ---------------------------------------------------------------------

  lemma {:induction false} PrimarySound(ts: seq<Token>, i: nat)
    requires i <= |ts| && Primary(ts, i).Ok?
    ensures IsPrimary(ts, i, Primary(ts, i).value)
    decreases |ts| - i, 0
  {
    if At(ts, i, Open) {
      DisjunctionSound(ts, i + 1);
    }
  }

  lemma {:induction false} ConjunctionSound(ts: seq<Token>, i: nat)
    requires i <= |ts| && Conjunction(ts, i).Ok?
    ensures IsConjunction(ts, i, Conjunction(ts, i).value)
    decreases |ts| - i, 1
  {
    PrimarySound(ts, i);
    var k := Primary(ts, i).value;
    if At(ts, k, And) {
      ConjunctionSound(ts, k + 1);
    }
  }

  lemma {:induction false} DisjunctionSound(ts: seq<Token>, i: nat)
    requires i <= |ts| && Disjunction(ts, i).Ok?
    ensures IsDisjunction(ts, i, Disjunction(ts, i).value)
    decreases |ts| - i, 2
  {
    ConjunctionSound(ts, i);
    var k := Conjunction(ts, i).value;
    if At(ts, k, Or) {
      DisjunctionSound(ts, k + 1);
    }
  }

  // A derivation that the next token cannot extend is the one that is consumed.
  lemma {:induction false} PrimaryComplete(ts: seq<Token>, i: nat, j: nat)
    requires i <= j <= |ts| && IsPrimary(ts, i, j) && !At(ts, j, With)
    ensures Primary(ts, i) == Ok(j)
    decreases j - i, 0
  {
    if ts[i] == Open {
      DisjunctionComplete(ts, i + 1, j - 1);
    }
  }

  lemma {:induction false} ConjunctionComplete(ts: seq<Token>, i: nat, j: nat)
    requires i <= j <= |ts| && IsConjunction(ts, i, j) && !At(ts, j, With) && !At(ts, j, And)
    ensures Conjunction(ts, i) == Ok(j)
    decreases j - i, 1
  {
    if IsPrimary(ts, i, j) {
      PrimaryComplete(ts, i, j);
    } else {
      var k :| i < k < j && IsPrimary(ts, i, k) && ts[k] == And && IsConjunction(ts, k + 1, j);
      PrimaryComplete(ts, i, k);
      ConjunctionComplete(ts, k + 1, j);
    }
  }

  lemma {:induction false} DisjunctionComplete(ts: seq<Token>, i: nat, j: nat)
    requires i <= j <= |ts| && IsDisjunction(ts, i, j)
    requires !At(ts, j, With) && !At(ts, j, And) && !At(ts, j, Or)
    ensures Disjunction(ts, i) == Ok(j)
    decreases j - i, 2
  {
    if IsConjunction(ts, i, j) {
      ConjunctionComplete(ts, i, j);
    } else {
      var k :| i < k < j && IsConjunction(ts, i, k) && ts[k] == Or && IsDisjunction(ts, k + 1, j);
      ConjunctionComplete(ts, i, k);
      DisjunctionComplete(ts, k + 1, j);
    }
  }

  // The recogniser accepts a token sequence exactly when the grammar derives it.
  lemma ValidatedIffGrammar(ts: seq<Token>)
    ensures Validated(ts) == Ok(()) <==> IsDisjunction(ts, 0, |ts|)
  {
    if Validated(ts) == Ok(()) {
      DisjunctionSound(ts, 0);
    }
    if IsDisjunction(ts, 0, |ts|) {
      DisjunctionComplete(ts, 0, |ts|);
    }
  }

  // ---------------------------------------------------------------------
  // When an accepted sequence conforms to Annex D of SPDX 2.3
  // ---------------------------------------------------------------------

  // The identifier of an exception: no operator, no reference to a local
  // licence, and no `+`, which belongs to the identifiers of licences only.
  predicate IsExceptionId(t: Token) {
    t.Identifier? && !NamesLocalLicence(t.text) && !AllowsLater(t.text)
  }

  // The identifier allows later versions.
  predicate AllowsLater(text: string) {
    text != "" && text[|text| - 1] == '+'
  }

  // The grammar of Annex D.
  predicate StrictPrimary(ts: seq<Token>, i: nat, j: nat)
    requires i <= j <= |ts|
    decreases j - i, 0
  {
    || (j == i + 1 && ts[i].Identifier?)
    || (j == i + 3 && ts[i].Identifier? && ts[i + 1] == With && IsExceptionId(ts[i + 2]))
    || (i + 2 <= j && ts[i] == Open && ts[j - 1] == Close && StrictDisjunction(ts, i + 1, j - 1))
  }

  predicate StrictConjunction(ts: seq<Token>, i: nat, j: nat)
    requires i <= j <= |ts|
    decreases j - i, 1
  {
    || StrictPrimary(ts, i, j)
    || (exists k | i < k < j :: StrictPrimary(ts, i, k) && ts[k] == And && StrictConjunction(ts, k + 1, j))
  }

  predicate StrictDisjunction(ts: seq<Token>, i: nat, j: nat)
    requires i <= j <= |ts|
    decreases j - i, 2
  {
    || StrictConjunction(ts, i, j)
    || (exists k | i < k < j :: StrictConjunction(ts, i, k) && ts[k] == Or && StrictDisjunction(ts, k + 1, j))
  }

  // An identifier without `+` is what a recogniser may let stand behind WITH.
  predicate MayNameException(t: Token) {
    t.Identifier? && !AllowsLater(t.text)
  }

  // Every WITH inside ts[i..j] is followed by such an identifier there.
  predicate NamesExceptions(ts: seq<Token>, i: nat, j: nat)
    requires i <= j <= |ts|
  {
    forall k | i < k < j && ts[k - 1] == With :: MayNameException(ts[k])
  }

  lemma {:induction false} StrictPrimaryIff(ts: seq<Token>, i: nat, j: nat)
    requires i <= j <= |ts|
    ensures StrictPrimary(ts, i, j) <==> IsPrimary(ts, i, j) && NamesExceptions(ts, i, j)
    ensures StrictPrimary(ts, i, j) ==> i < j && ts[j - 1] != With
    decreases j - i, 0
  {
    if i + 2 <= j && ts[i] == Open && ts[j - 1] == Close {
      StrictDisjunctionIff(ts, i + 1, j - 1);
    }
  }

  lemma {:induction false} StrictConjunctionIff(ts: seq<Token>, i: nat, j: nat)
    requires i <= j <= |ts|
    ensures StrictConjunction(ts, i, j) <==> IsConjunction(ts, i, j) && NamesExceptions(ts, i, j)
    ensures StrictConjunction(ts, i, j) ==> i < j && ts[j - 1] != With
    decreases j - i, 1
  {
    StrictPrimaryIff(ts, i, j);
    forall k | i < k < j && ts[k] == And
      ensures StrictPrimary(ts, i, k) <==> IsPrimary(ts, i, k) && NamesExceptions(ts, i, k)
      ensures StrictPrimary(ts, i, k) ==> ts[k - 1] != With
      ensures StrictConjunction(ts, k + 1, j) <==> IsConjunction(ts, k + 1, j) && NamesExceptions(ts, k + 1, j)
      ensures StrictConjunction(ts, k + 1, j) ==> k + 1 < j && ts[j - 1] != With
    {
      StrictPrimaryIff(ts, i, k);
      StrictConjunctionIff(ts, k + 1, j);
    }
  }

  lemma {:induction false} StrictDisjunctionIff(ts: seq<Token>, i: nat, j: nat)
    requires i <= j <= |ts|
    ensures StrictDisjunction(ts, i, j) <==> IsDisjunction(ts, i, j) && NamesExceptions(ts, i, j)
    ensures StrictDisjunction(ts, i, j) ==> i < j && ts[j - 1] != With
    decreases j - i, 2
  {
    StrictConjunctionIff(ts, i, j);
    forall k | i < k < j && ts[k] == Or
      ensures StrictConjunction(ts, i, k) <==> IsConjunction(ts, i, k) && NamesExceptions(ts, i, k)
      ensures StrictConjunction(ts, i, k) ==> ts[k - 1] != With
      ensures StrictDisjunction(ts, k + 1, j) <==> IsDisjunction(ts, k + 1, j) && NamesExceptions(ts, k + 1, j)
      ensures StrictDisjunction(ts, k + 1, j) ==> k + 1 < j && ts[j - 1] != With
    {
      StrictConjunctionIff(ts, i, k);
      StrictDisjunctionIff(ts, k + 1, j);
    }
  }

  // A token sequence conforms to Annex D exactly when the recogniser accepts it
  // and nothing but identifiers without `+` stands behind WITH.
  lemma AnnexDIff(ts: seq<Token>)
    ensures StrictDisjunction(ts, 0, |ts|) <==>
      Validated(ts) == Ok(()) && forall k | 0 < k < |ts| && ts[k - 1] == With :: MayNameException(ts[k])
  {
    ValidatedIffGrammar(ts);
    StrictDisjunctionIff(ts, 0, |ts|);
  }

  // What the recogniser accepts beyond Annex D behind WITH.
  lemma BeyondAnnexD(text: string, t: Token)
    requires IsException(t) && !MayNameException(t)
    ensures var ts := [Identifier(text), With, t];
      Validated(ts) == Ok(()) && !StrictDisjunction(ts, 0, |ts|)
  {
    var ts := [Identifier(text), With, t];
    assert IsPrimary(ts, 0, 3) && IsConjunction(ts, 0, 3);
    DisjunctionComplete(ts, 0, 3);
    AnnexDIff(ts);
    assert ts[2 - 1] == With && !MayNameException(ts[2]);
  }

  // An operator, as in `MIT WITH OR`.
  lemma OperatorBehindWith(text: string, t: Token)
    requires t == And || t == Or || t == With
    ensures var ts := [Identifier(text), With, t];
      Validated(ts) == Ok(()) && !StrictDisjunction(ts, 0, |ts|)
  {
    BeyondAnnexD(text, t);
  }

  // The text is something, then `LicenseRef-`, then something.
  ghost predicate IsLocal(text: string) {
    exists before: string, after: string :: text == before + "LicenseRef-" + after
  }

  lemma InfixAt(text: string, infix: string, k: nat)
    requires k <= |text| && infix <= text[k..]
    ensures text == text[..k] + infix + text[k..][|infix|..]
  {
  }

  lemma InfixBehind(before: string, infix: string, after: string)
    ensures |before| <= |before + infix + after| && infix <= (before + infix + after)[|before|..]
  {
    assert (before + infix + after)[|before|..] == infix + after;
  }

  lemma LocalIff(text: string)
    ensures NamesLocalLicence(text) <==> IsLocal(text)
  {
    if NamesLocalLicence(text) {
      var k: nat :| k <= |text| && "LicenseRef-" <= text[k..];
      InfixAt(text, "LicenseRef-", k);
    }
    if IsLocal(text) {
      var before: string, after: string :| text == before + "LicenseRef-" + after;
      InfixBehind(before, "LicenseRef-", after);
    }
  }

  // Behind WITH no identifier of a local licence is accepted, and every other one is.
  lemma LocalLicenceRefused(text: string, exception: string)
    ensures Validated([Identifier(text), With, Identifier(exception)]) ==
      if IsLocal(exception) then Err(ExpectedException) else Ok(())
  {
    hide NamesLocalLicence, IsLocal;
    var ts := [Identifier(text), With, Identifier(exception)];
    LocalIff(exception);
    assert Primary(ts, 0) == if IsException(ts[2]) then Ok(3) else Err(ExpectedException);
    assert Conjunction(ts, 0) == Primary(ts, 0) == Disjunction(ts, 0);
  }

  // An identifier with `+`, as in `MIT WITH GPL-2.0+`.
  lemma PlusBehindWith(text: string, exception: string)
    requires AllowsLater(exception) && !NamesLocalLicence(exception)
    ensures var ts := [Identifier(text), With, Identifier(exception)];
      Validated(ts) == Ok(()) && !StrictDisjunction(ts, 0, |ts|)
  {
    BeyondAnnexD(text, Identifier(exception));
  }

  lemma PlusCounterexample()
    ensures var ts := [Identifier("MIT"), With, Identifier("GPL-2.0+")];
      Validated(ts) == Ok(()) && !StrictDisjunction(ts, 0, |ts|)
  {
    assert "GPL-2.0+"[7] == '+';
    PlusBehindWith("MIT", "GPL-2.0+");
  }

  // ---------------------------------------------------------------------
  // The token cursor
  // ---------------------------------------------------------------------

  class Tokens {
    const values: seq<Token>
    var index: nat

    constructor (values: seq<Token>)
      ensures this.values == values && index == 0
    {
      this.values := values;
      index := 0;
    }

    predicate Valid()
      reads this
    {
      index <= |values|
    }

    function Peek(): Option<Token>
      requires Valid()
      reads this
    {
      if index < |values| then Some(values[index]) else None
    }

    // take(expected), with None for any token
    method Take(expected: Option<Token>) returns (r: Result<Token, SpdxError>)
      requires Valid()
      modifies this`index
      ensures Valid()
      ensures r.Ok? <==> old(index) < |values| && (expected.Some? ==> values[old(index)] == expected.value)
      ensures r.Ok? ==> r.value == values[old(index)] && index == old(index) + 1
      ensures r.Err? ==> index == old(index)
                         && r.error == (if old(index) == |values| then UnexpectedEnd else UnexpectedToken)
    {
      if index == |values| {
        return Err(UnexpectedEnd);
      }
      var token := values[index];
      if expected.Some? && token != expected.value {
        return Err(UnexpectedToken);
      }
      index := index + 1;
      r := Ok(token);
    }

    // What a routine does to the cursor, given the position it computes.
    predicate Moved(outcome: Result<nat, SpdxError>, r: Result<(), SpdxError>)
      reads this
    {
      && Valid()
      && (outcome.Ok? ==> r == Ok(()) && index == outcome.value)
      && (outcome.Err? ==> r == Err(outcome.error))
    }

    method TakePrimary() returns (r: Result<(), SpdxError>)
      requires Valid()
      modifies this`index
      ensures Moved(Primary(values, old(index)), r)
      decreases |values| - index, 0
    {
      var token := Peek();
      if token == Some(Open) {
        var left := Take(Some(Open));
        r := TakeDisjunction();
        if r.Err? { return; }
        var right := Take(Some(Close));
        return if right.Ok? then Ok(()) else Err(right.error);
      }
      if token.None? || !token.value.Identifier? {
        return Err(ExpectedIdentifier);
      }
      var identifier := Take(None);
      if Peek() == Some(With) {
        var operator := Take(Some(With));
        var exception := Take(None);
        if exception.Err? {
          return Err(exception.error);
        }
        if !IsException(exception.value) {
          return Err(ExpectedException);
        }
      }
      r := Ok(());
    }

    method TakeConjunction() returns (r: Result<(), SpdxError>)
      requires Valid()
      modifies this`index
      ensures Moved(Conjunction(values, old(index)), r)
      decreases |values| - index, 1
    {
      r := TakePrimary();
      if r.Err? { return; }
      while Peek() == Some(And)
        invariant Valid() && old(index) < index
        invariant Conjunction(values, old(index)) ==
          if At(values, index, And) then Conjunction(values, index + 1) else Ok(index)
        decreases |values| - index
      {
        var operator := Take(Some(And));
        r := TakePrimary();
        if r.Err? { return; }
      }
      r := Ok(());
    }

    method TakeDisjunction() returns (r: Result<(), SpdxError>)
      requires Valid()
      modifies this`index
      ensures Moved(Disjunction(values, old(index)), r)
      decreases |values| - index, 2
    {
      r := TakeConjunction();
      if r.Err? { return; }
      while Peek() == Some(Or)
        invariant Valid() && old(index) < index
        invariant Disjunction(values, old(index)) ==
          if At(values, index, Or) then Disjunction(values, index + 1) else Ok(index)
        decreases |values| - index
      {
        var operator := Take(Some(Or));
        r := TakeConjunction();
        if r.Err? { return; }
      }
      r := Ok(());
    }
  }

  method ValidateExpression(values: seq<Token>) returns (r: Result<(), SpdxError>)
    ensures r == Validated(values)
    ensures r == Ok(()) <==> IsDisjunction(values, 0, |values|)
  {
    ValidatedIffGrammar(values);
    if values == [] {
      return Err(EmptyExpression);
    }
    var tokens := new Tokens(values);
    r := tokens.TakeDisjunction();
    if r.Ok? && tokens.Peek().Some? {
      r := Err(UnexpectedToken);
    }
  }
}
