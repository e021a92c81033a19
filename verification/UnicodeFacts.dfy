/** What Normalization Form C does to Hangul and to two code points, in numbers. */
module UnicodeFacts {
  import opened Wrappers
  import opened Unicode
  import opened UnicodeComposition

  // The conjoining jamo of a syllable: 19 leading consonants from U+1100, 21
  // vowels from U+1161, and none or one of 27 trailing consonants behind U+11A7.
  function Jamo(l: nat, v: nat, k: nat): seq<nat> {
    [0x1100 + l, 0x1161 + v] + if k == 0 then [] else [0x11A7 + k]
  }

  // Section 3.12 of Unicode 15.0: the syllables from U+AC00, by their jamo.
  function Syllable(l: nat, v: nat, k: nat): nat {
    0xAC00 + (l * 21 + v) * 28 + k
  }

  lemma SyllableIndex(l: nat, v: nat, k: nat)
    requires l < 19 && v < 21 && k < 28
    ensures var i := (l * 21 + v) * 28 + k;
      0 <= i < 11172 && i / 588 == l && (i % 588) / 28 == v && i % 28 == k
  {
    var i := (l * 21 + v) * 28 + k;
    assert i == 588 * l + (28 * v + k) && 28 * v + k < 588;
  }

  lemma SyllableParts(l: nat, v: nat, k: nat)
    requires l < 19 && v < 21 && k < 28
    ensures IsSyllable(Syllable(l, v, k)) && HangulParts(Syllable(l, v, k)) == Jamo(l, v, k)
  {
    SyllableIndex(l, v, k);
  }

  lemma JamoStay(t: Tables, l: nat, v: nat, k: nat)
    requires Sound(t) && Stable(t) && l < 19 && v < 21 && k < 28
    ensures AllAtomic(t, Jamo(l, v, k)) && InCanonicalOrder(t, Jamo(l, v, k))
    ensures forall j | 0 <= j < |Jamo(l, v, k)| :: Class(t, Jamo(l, v, k)[j]) == 0
    ensures Class(t, Syllable(l, v, k)) == 0
  {
    hide Acyclic, Decompose, Class;
    SyllableParts(l, v, k);
    assert forall j | 0 <= j < |Jamo(l, v, k)| :: IsJamo(Jamo(l, v, k)[j]);
  }

  lemma JamoCompose(t: Tables, l: nat, v: nat, k: nat)
    requires l < 19 && v < 21 && k < 28
    requires forall j | 0 <= j < |Jamo(l, v, k)| :: Class(t, Jamo(l, v, k)[j]) == 0
    ensures Compose(t, Jamo(l, v, k)).result == [Syllable(l, v, k)]
  {
    hide Class;
    var s, lv := Jamo(l, v, k), Syllable(l, v, 0);
    SyllableIndex(l, v, 0);
    assert Class(t, s[0]) == 0;
    assert [s[0], s[1]][..1] == [s[0]];
    assert HangulCompose(s[0], s[1]) == Some(lv);
    assert Compose(t, [s[0], s[1]]) == Composing([lv], 0, lv, 0);
    if k == 0 {
      assert s == [s[0], s[1]];
    } else {
      assert s[..2] == [s[0], s[1]];
      assert HangulCompose(lv, s[2]) == Some(Syllable(l, v, k));
    }
  }

  // Main result for Hangul: the jamo of a syllable compose to it, and it
  // decomposes to them.
  lemma {:induction false} HangulLaw(t: Tables, l: nat, v: nat, k: nat)
    requires Sound(t) && Stable(t) && l < 19 && v < 21 && k < 28
    ensures NFC(t, [0x1100 + l, 0x1161 + v] + if k == 0 then [] else [0x11A7 + k]) == [0xAC00 + (l * 21 + v) * 28 + k]
    ensures Canonical(t, [0xAC00 + (l * 21 + v) * 28 + k]) ==
      [0x1100 + l, 0x1161 + v] + if k == 0 then [] else [0x11A7 + k]
    ensures NFC(t, [0xAC00 + (l * 21 + v) * 28 + k]) == [0xAC00 + (l * 21 + v) * 28 + k]
  {
    hide Acyclic, Class, Stable, DecomposeAll, Reorder, Compose, HangulParts;
    var jamo, syllable := Jamo(l, v, k), Syllable(l, v, k);
    JamoStay(t, l, v, k);
    CanonicalStays(t, jamo);
    JamoCompose(t, l, v, k);
    SyllableParts(l, v, k);
    DecomposeAllOne(t, syllable);
    OrderedStays(t, jamo);
  }

  lemma PairOrder(t: Tables, a: nat, b: nat)
    ensures Reorder(t, [a, b]) == if Class(t, a) > Class(t, b) > 0 then [b, a] else [a, b]
  {
    hide Class;
    assert [a, b][..1] == [a] && [a][..0] == [] && Reorder(t, []) == [];
    assert Reorder(t, [a]) == Insert(t, [], a) == [a];
    assert Insert(t, [a], b) == if Class(t, a) > Class(t, b) > 0 then Insert(t, [], b) + [a] else [a] + [b];
  }

  lemma PairCompose(t: Tables, a: nat, b: nat)
    ensures Compose(t, [a, b]).result ==
      if Composite(t, a, b).Some? && (Class(t, a) == 0 || Class(t, a) < Class(t, b)) then [Composite(t, a, b).value]
      else [a, b]
  {
    hide Class, Composite;
    assert [a, b][..1] == [a];
  }

  lemma PairDecompose(t: Tables, a: nat, b: nat)
    requires Acyclic(t) && Atomic(t, a) && Atomic(t, b)
    ensures DecomposeAll(t, [a, b]) == [a, b]
  {
    AtomicStays(t, [a, b]);
  }

  // Main result for two code points that do not decompose and are no pair of
  // leading consonant and vowel: marks out of order are swapped, a pair of the
  // table is composed, and any other pair stays.
  lemma {:induction false} PairLaw(t: Tables, a: nat, b: nat)
    requires Sound(t) && Stable(t) && Atomic(t, a) && Atomic(t, b)
    requires !(0x1100 <= a < 0x1113 && 0x1161 <= b < 0x1176)
    ensures NFC(t, [a, b]) ==
      if Class(t, a) > Class(t, b) > 0 then [b, a]
      else if (a, b) in t.composition then [t.composition[(a, b)]]
      else [a, b]
  {
    hide Acyclic, Class, DecomposeAll, Reorder, Compose;
    PairDecompose(t, a, b);
    PairOrder(t, a, b);
    PairCompose(t, a, b);
    PairCompose(t, b, a);
    if Composite(t, b, a).Some? {
      CompositeIsStarter(t, b, a);
    }
    if Composite(t, a, b).Some? {
      CompositeIsStarter(t, a, b);
    }
  }
}
