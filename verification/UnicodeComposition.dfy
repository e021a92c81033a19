/** Normalization Form C is fully composed: no two code points of a normal form
    are left that composition could still join. */
module UnicodeComposition {
  import opened Wrappers
  import opened Unicode

  // ---------------------------------------------------------------------
  // Facts about compositions
  // ---------------------------------------------------------------------

  // What Full_Composition_Exclusion and the stability of canonical order give:
  // composites and their first parts are starters, second parts do not
  // decompose, and full decompositions are canonically ordered.  Hangul
  // syllables and jamo are starters.
  ghost predicate Stable(t: Tables)
    requires Acyclic(t)
  {
    && (forall cp | IsSyllable(cp) || IsJamo(cp) :: Class(t, cp) == 0)
    && (forall pair | pair in t.composition ::
          && Class(t, pair.0) == 0 && Class(t, t.composition[pair]) == 0 && Atomic(t, pair.1)
          && InCanonicalOrder(t, Decompose(t, t.composition[pair])))
  }

  // Section 3.11 of Unicode 15.0: nothing between i and j keeps them apart.
  predicate Unblocked(t: Tables, s: seq<nat>, i: nat, j: nat)
    requires i < j < |s|
  {
    forall k | i < k < j :: 0 < Class(t, s[k]) < Class(t, s[j])
  }

  // No starter has an unblocked later code point that composes with it.
  predicate FullyComposed(t: Tables, s: seq<nat>) {
    forall i, j | 0 <= i < j < |s| && Class(t, s[i]) == 0 && Unblocked(t, s, i, j) :: Composite(t, s[i], s[j]).None?
  }

  // ---------------------------------------------------------------------
  // Properties of composites
  // ---------------------------------------------------------------------

  lemma CompositeIsStarter(t: Tables, first: nat, second: nat)
    requires Sound(t) && Stable(t) && Composite(t, first, second).Some?
    ensures Class(t, first) == 0 && Class(t, Composite(t, first, second).value) == 0
    ensures !Atomic(t, Composite(t, first, second).value)
  {
    if HangulCompose(first, second).Some? {
      HangulInverse(first, second);
    }
  }

  lemma SecondIsAtomic(t: Tables, first: nat, second: nat)
    requires Sound(t) && Stable(t) && Composite(t, first, second).Some?
    ensures Atomic(t, second)
  {
  }

  lemma {:induction false} OrderedTail(t: Tables, s: seq<nat>, x: nat, y: nat)
    requires InCanonicalOrder(t, s + [x] + [y])
    ensures MayFollow(t, x, y)
  {
    var whole := s + [x] + [y];
    assert whole[|s|] == x && whole[|s| + 1] == y;
  }

  // A composite does not compose with a mark that its last part has overtaken.
  lemma CompositeSkipsLowerMark(t: Tables, first: nat, second: nat, mark: nat)
    requires Sound(t) && Stable(t) && Composite(t, first, second).Some? && Atomic(t, second) && Atomic(t, mark)
    requires 0 < Class(t, mark) < Class(t, second)
    ensures Composite(t, Composite(t, first, second).value, mark).None?
  {
    hide Decompose, Acyclic, Atomic, InCanonicalOrder;
    var c := Composite(t, first, second).value;
    if Composite(t, c, mark).Some? {
      CompositeDecomposes(t, first, second);
      CompositeDecomposes(t, c, mark);
      if HangulCompose(c, mark).None? {
        assert InCanonicalOrder(t, Decompose(t, t.composition[(c, mark)]));
        OrderedTail(t, Decompose(t, first), second, mark);
      }
    }
  }

  // ---------------------------------------------------------------------
  // The invariant of the composition loop
  // ---------------------------------------------------------------------

  ghost predicate Settled(t: Tables, c: Composing) {
    && c.starterPosition < |c.result| && c.result[c.starterPosition] == c.starter
    && (c.starterPosition > 0 ==> Class(t, c.starter) == 0)
    && (Between(c) == [] ==> c.lastClass == Class(t, c.starter))
    && FullyComposed(t, c.result)
  }

  // Where the marks behind the starter stand in the result.
  lemma BetweenAt(t: Tables, c: Composing, j: nat)
    requires c.starterPosition < j < |c.result| && MarksInOrder(t, Between(c)) && AllAtomic(t, Between(c))
    ensures Class(t, c.result[j]) > 0 && Atomic(t, c.result[j]) && Between(c) != []
    ensures Class(t, c.result[j]) <= Class(t, Between(c)[|Between(c)| - 1])
    ensures Between(c)[|Between(c)| - 1] == c.result[|c.result| - 1]
  {
    var k := j - (c.starterPosition + 1);
    assert Between(c)[k] == c.result[j];
    if k < |Between(c)| - 1 {
      assert Class(t, Between(c)[k]) <= Class(t, Between(c)[|Between(c)| - 1]);
    }
  }

  lemma {:induction false} ComposingSettles(t: Tables, c: Composing, seen: seq<nat>, cp: nat)
    requires Sound(t) && Stable(t) && Composed(t, c, seen) && Settled(t, c) && Atomic(t, cp)
    requires Composite(t, c.starter, cp).Some? && (c.lastClass == 0 || c.lastClass < Class(t, cp))
    ensures Settled(t, ComposeStep(t, c, cp))
  {
    hide Composite, Acyclic, Stable, Sound, Canonical, Decompose;
    var c', p := ComposeStep(t, c, cp), c.starterPosition;
    var s, s' := c.result, c'.result;
    CompositeIsStarter(t, c.starter, cp);
    assert Between(c') == Between(c);
    forall i, j | 0 <= i < j < |s'| && Class(t, s'[i]) == 0 && Unblocked(t, s', i, j)
      ensures Composite(t, s'[i], s'[j]).None?
    {
      if j == p {
        if Composite(t, s'[i], s'[j]).Some? { SecondIsAtomic(t, s'[i], s'[j]); }
      } else if i == p {
        BetweenAt(t, c, j);
        CompositeSkipsLowerMark(t, c.starter, cp, s[j]);
      } else if !(i < p < j) { // the starter blocks what it stands between
        assert forall k | i < k < j :: s'[k] == s[k];
        assert Unblocked(t, s, i, j);
      }
    }
  }

  // Nothing composes with the code point that was appended.
  lemma AppendedSettles(t: Tables, c: Composing, seen: seq<nat>, cp: nat, i: nat)
    requires Sound(t) && Stable(t) && Composed(t, c, seen) && Settled(t, c) && Atomic(t, cp)
    requires Composite(t, c.starter, cp).None? || !(c.lastClass == 0 || c.lastClass < Class(t, cp))
    requires i < |c.result| && Class(t, c.result[i]) == 0 && Unblocked(t, c.result + [cp], i, |c.result|)
    ensures Composite(t, c.result[i], cp).None?
  {
    hide Composite, Acyclic, Stable, Sound, Canonical, Atomic, FullyComposed;
    var s, p := c.result, c.starterPosition;
    assert forall k | 0 <= k < |s| :: (s + [cp])[k] == s[k];
    if i == p {
      if p < |s| - 1 {
        BetweenAt(t, c, |s| - 1);
        assert Class(t, s[|s| - 1]) < Class(t, cp);
      } else {
        assert Between(c) == [];
      }
    } else if i > p {
      BetweenAt(t, c, i);
    } // a starter before p is blocked by the one at p
  }

  lemma {:induction false} AppendingSettles(t: Tables, c: Composing, seen: seq<nat>, cp: nat)
    requires Sound(t) && Stable(t) && Composed(t, c, seen) && Settled(t, c) && Atomic(t, cp)
    requires Composite(t, c.starter, cp).None? || !(c.lastClass == 0 || c.lastClass < Class(t, cp))
    ensures Settled(t, ComposeStep(t, c, cp))
  {
    hide Composite, Acyclic, Stable, Sound, Canonical, Atomic, Composed;
    var c', s := ComposeStep(t, c, cp), c.result;
    var s' := c'.result;
    assert s' == s + [cp];
    assert Class(t, cp) != 0 ==> Between(c') == Between(c) + [cp];
    forall i, j | 0 <= i < j < |s'| && Class(t, s'[i]) == 0 && Unblocked(t, s', i, j)
      ensures Composite(t, s'[i], s'[j]).None?
    {
      if j < |s| {
        assert Unblocked(t, s, i, j) by {
          assert forall k | i < k < j :: s'[k] == s[k];
        }
      } else {
        AppendedSettles(t, c, seen, cp, i);
      }
    }
  }

  lemma {:induction false} ComposeSettles(t: Tables, s: seq<nat>)
    requires Sound(t) && Stable(t) && s != [] && AllAtomic(t, s) && InCanonicalOrder(t, s)
    ensures Settled(t, Compose(t, s))
  {
    hide Sound, Stable, Composite, ComposeStep, Canonical, Acyclic, Settled, Composed, Class;
    if |s| == 1 {
      SingleSettles(t, s);
    } else {
      var front, cp := s[..|s| - 1], s[|s| - 1];
      ComposeSettles(t, front);
      ComposeIsUndone(t, front);
      var c := Compose(t, front);
      if Composite(t, c.starter, cp).Some? && (c.lastClass == 0 || c.lastClass < Class(t, cp)) {
        ComposingSettles(t, c, front, cp);
      } else {
        AppendingSettles(t, c, front, cp);
      }
    }
  }

  lemma SingleSettles(t: Tables, s: seq<nat>)
    requires |s| == 1
    ensures Settled(t, Compose(t, s))
  {
    assert Between(Compose(t, s)) == [];
  }

  // ---------------------------------------------------------------------
  // Main result
  // ---------------------------------------------------------------------

  // Normal forms are fully composed.
  lemma {:induction false} NFCFullyComposed(t: Tables, s: seq<nat>)
    requires Sound(t) && Stable(t)
    ensures FullyComposed(t, NFC(t, s))
  {
    hide Stable, Canonical, Compose, FullyComposed;
    NothingToCompose(t);
    CanonicalIsAtomic(t, s);
    if Canonical(t, s) != [] {
      ComposeSettles(t, Canonical(t, s));
    }
  }

  lemma NothingToCompose(t: Tables)
    ensures FullyComposed(t, [])
  {
  }

  // ---------------------------------------------------------------------
  // Tables for which it matters
  // ---------------------------------------------------------------------

  const ONE_COMPOSITE: Tables := Tables(map[300 := [100, 200]], map[], map[(100, 200) := 300])

  lemma OneCompositeIsSound()
    ensures Sound(ONE_COMPOSITE)
  {
    var rank: nat -> nat := (cp: nat) => if cp == 300 then 1 else 0;
    assert RanksDecomposition(ONE_COMPOSITE, rank);
  }

  lemma OneCompositeDecomposes()
    requires Acyclic(ONE_COMPOSITE)
    ensures Decompose(ONE_COMPOSITE, 300) == [100, 200]
  {
    hide Acyclic, RanksDecomposition;
    var t := ONE_COMPOSITE;
    assert Decompose(t, 100) == [100] && Decompose(t, 200) == [200];
    assert DecomposeChildren(t, 300, 1) == DecomposeChildren(t, 300, 0) + Decompose(t, 100) == [100];
    assert DecomposeChildren(t, 300, 2) == DecomposeChildren(t, 300, 1) + Decompose(t, 200) == [100, 200];
  }

  // The facts hold together, and a canonical decomposition is not fully
  // composed in general.
  lemma DecompositionsAreNotComposed()
    ensures Sound(ONE_COMPOSITE) && Stable(ONE_COMPOSITE)
    ensures Canonical(ONE_COMPOSITE, [300]) == [100, 200] && !FullyComposed(ONE_COMPOSITE, [100, 200])
  {
    hide Acyclic, RanksDecomposition, Decompose, DecomposeAll, Reorder;
    var t := ONE_COMPOSITE;
    OneCompositeIsSound();
    OneCompositeDecomposes();
    DecomposeAllOne(t, 300);
    assert InCanonicalOrder(t, [100, 200]);
    OrderedStays(t, [100, 200]);
    assert Unblocked(t, [100, 200], 0, 1) && Composite(t, 100, 200) == Some(300);
  }

  // ---------------------------------------------------------------------
  // The composition loop and the whole of normalize_nfc
  // ---------------------------------------------------------------------

  method ComposeString(t: Tables, ordered: seq<nat>) returns (result: seq<nat>)
    requires ordered != []
    ensures result == Compose(t, ordered).result
    ensures Acyclic(t) && Sound(t) && Stable(t) && AllAtomic(t, ordered) && InCanonicalOrder(t, ordered) ==>
      FullyComposed(t, result)
  {
    hide HangulCompose, Class;
    result := [ordered[0]];
    var starterPosition: nat, starter: nat := 0, ordered[0];
    var lastClass: nat := Class(t, starter);
    ComposeFirst(t, ordered);
    for k := 1 to |ordered|
      invariant Compose(t, ordered[..k]) == Composing(result, starterPosition, starter, lastClass)
    {
      assert ordered[..k + 1][..k] == ordered[..k];
      var cp := ordered[k];
      var currentClass := Class(t, cp);
      var composite := HangulCompose(starter, cp);
      if composite.None? && (starter, cp) in t.composition {
        composite := Some(t.composition[(starter, cp)]);
      }
      if composite.Some? && (lastClass == 0 || lastClass < currentClass) {
        result := result[starterPosition := composite.value];
        starter := composite.value;
        continue;
      }
      if currentClass == 0 {
        starterPosition := |result|;
        starter := cp;
      }
      result := result + [cp];
      lastClass := currentClass;
    }
    assert ordered[..|ordered|] == ordered;
    if Acyclic(t) && Sound(t) && Stable(t) && AllAtomic(t, ordered) && InCanonicalOrder(t, ordered) {
      ComposeSettles(t, ordered);
    }
  }

  lemma NormalForm(t: Tables, value: seq<nat>)
    requires Acyclic(t)
    ensures var ordered := Reorder(t, DecomposeAll(t, value));
      NFC(t, value) == if ordered == [] then [] else Compose(t, ordered).result
  {
  }

  method NormalizeNFC(t: Tables, value: seq<nat>) returns (normal: seq<nat>)
    requires Acyclic(t)
    ensures normal == NFC(t, value)
    ensures Sound(t) ==> Canonical(t, normal) == Canonical(t, value) && NFC(t, normal) == normal
    ensures Sound(t) && Stable(t) ==> FullyComposed(t, normal)
  {
    hide Sound, Stable, FullyComposed, Canonical, Acyclic;
    if Sound(t) {
      NFCKeepsCanonical(t, value);
      NFCIdempotent(t, value);
      if Stable(t) {
        NFCFullyComposed(t, value);
      }
    }
    NormalForm(t, value);
    var decomposed := DecomposeString(t, value);
    var ordered := ReorderString(t, decomposed);
    if ordered == [] {
      return [];
    }
    normal := ComposeString(t, ordered);
  }
}
