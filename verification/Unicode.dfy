/** Unicode 15.0 Normalization Form C (src/makoto/unicode15.py).

    A string is a sequence of code points.  The generated tables are a
    parameter; `Sound` lists the only facts about them that the results need. */
module Unicode {
  import opened Wrappers

  datatype Tables = Tables(
    decomposition: map<nat, seq<nat>>, combiningClass: map<nat, nat>, composition: map<(nat, nat), nat>)

  const S_BASE: nat := 0xAC00
  const L_BASE: nat := 0x1100
  const V_BASE: nat := 0x1161
  const T_BASE: nat := 0x11A7
  const L_COUNT: nat := 19
  const V_COUNT: nat := 21
  const T_COUNT: nat := 28
  const N_COUNT: nat := V_COUNT * T_COUNT
  const S_COUNT: nat := L_COUNT * N_COUNT

  predicate IsSyllable(cp: nat) {
    S_BASE <= cp < S_BASE + S_COUNT
  }

  predicate IsJamo(cp: nat) {
    || L_BASE <= cp < L_BASE + L_COUNT
    || V_BASE <= cp < V_BASE + V_COUNT
    || T_BASE < cp < T_BASE + T_COUNT
  }

  // ---------------------------------------------------------------------
  // Facts about the tables (scripts/generate_unicode_tables.py)
  // ---------------------------------------------------------------------

  ghost predicate RanksDecomposition(t: Tables, rank: nat -> nat) {
    forall cp, k :: cp in t.decomposition && 0 <= k < |t.decomposition[cp]| ==> rank(t.decomposition[cp][k]) < rank(cp)
  }

  ghost predicate Acyclic(t: Tables) {
    exists rank: nat -> nat :: RanksDecomposition(t, rank)
  }

  ghost function Rank(t: Tables): (rank: nat -> nat)
    requires Acyclic(t)
    ensures RanksDecomposition(t, rank)
  {
    var rank: nat -> nat :| RanksDecomposition(t, rank);
    rank
  }

  ghost predicate Sound(t: Tables) {
    && Acyclic(t)
    && (forall cp :: cp in t.decomposition ==> !IsSyllable(cp) && !IsJamo(cp))
    && (forall pair :: pair in t.composition ==>
          t.composition[pair] in t.decomposition && t.decomposition[t.composition[pair]] == [pair.0, pair.1])
  }

  function Class(t: Tables, cp: nat): nat {
    if cp in t.combiningClass then t.combiningClass[cp] else 0
  }

  // ---------------------------------------------------------------------
  // Full decomposition
  // ---------------------------------------------------------------------

  function HangulParts(cp: nat): seq<nat>
    requires IsSyllable(cp)
  {
    var index := cp - S_BASE;
    var lv := [L_BASE + index / N_COUNT, V_BASE + (index % N_COUNT) / T_COUNT];
    if index % T_COUNT == 0 then lv else lv + [T_BASE + index % T_COUNT]
  }

  function Decompose(t: Tables, cp: nat): seq<nat>
    requires Acyclic(t)
    decreases Rank(t)(cp), 1
  {
    if IsSyllable(cp) then HangulParts(cp)
    else if cp in t.decomposition then DecomposeChildren(t, cp, |t.decomposition[cp]|)
    else [cp]
  }

  // The decompositions of the first n children of cp.
  function DecomposeChildren(t: Tables, cp: nat, n: nat): seq<nat>
    requires Acyclic(t) && cp in t.decomposition && n <= |t.decomposition[cp]|
    decreases Rank(t)(cp), 0, n
  {
    if n == 0 then [] else DecomposeChildren(t, cp, n - 1) + Decompose(t, t.decomposition[cp][n - 1])
  }

  function DecomposeAll(t: Tables, s: seq<nat>): seq<nat>
    requires Acyclic(t)
  {
    if s == [] then [] else DecomposeAll(t, s[..|s| - 1]) + Decompose(t, s[|s| - 1])
  }

  lemma {:induction false} DecomposeAllConcat(t: Tables, a: seq<nat>, b: seq<nat>)
    requires Acyclic(t)
    ensures DecomposeAll(t, a + b) == DecomposeAll(t, a) + DecomposeAll(t, b)
    decreases |b|
  {
    if b == [] {
      assert a + b == a;
    } else {
      assert (a + b)[..|a + b| - 1] == a + b[..|b| - 1];
      DecomposeAllConcat(t, a, b[..|b| - 1]);
    }
  }

  lemma DecomposeAllOne(t: Tables, cp: nat)
    requires Acyclic(t)
    ensures DecomposeAll(t, [cp]) == Decompose(t, cp)
  {
    assert [cp][..0] == [];
  }

  // A code point that decomposes to itself.
  predicate Atomic(t: Tables, cp: nat) {
    !IsSyllable(cp) && cp !in t.decomposition
  }

  predicate AllAtomic(t: Tables, s: seq<nat>) {
    forall k | 0 <= k < |s| :: Atomic(t, s[k])
  }

  lemma {:induction false} DecomposeIsAtomic(t: Tables, cp: nat)
    requires Sound(t)
    ensures AllAtomic(t, Decompose(t, cp))
    decreases Rank(t)(cp), 1
  {
    if !IsSyllable(cp) && cp in t.decomposition {
      DecomposeChildrenAtomic(t, cp, |t.decomposition[cp]|);
    }
  }

  lemma {:induction false} DecomposeChildrenAtomic(t: Tables, cp: nat, n: nat)
    requires Sound(t) && cp in t.decomposition && n <= |t.decomposition[cp]|
    ensures AllAtomic(t, DecomposeChildren(t, cp, n))
    decreases Rank(t)(cp), 0, n
  {
    if n > 0 {
      DecomposeChildrenAtomic(t, cp, n - 1);
      DecomposeIsAtomic(t, t.decomposition[cp][n - 1]);
    }
  }

  lemma {:induction false} DecomposeAllIsAtomic(t: Tables, s: seq<nat>)
    requires Sound(t)
    ensures AllAtomic(t, DecomposeAll(t, s))
  {
    if s != [] {
      DecomposeAllIsAtomic(t, s[..|s| - 1]);
      DecomposeIsAtomic(t, s[|s| - 1]);
    }
  }

  lemma {:induction false} AtomicStays(t: Tables, s: seq<nat>)
    requires Acyclic(t) && AllAtomic(t, s)
    ensures DecomposeAll(t, s) == s
  {
    if s != [] {
      AtomicStays(t, s[..|s| - 1]);
    }
  }

  // ---------------------------------------------------------------------
  // Canonical reordering
  // ---------------------------------------------------------------------

  // Insert a code point behind the last one that it may not pass.
  function Insert(t: Tables, ordered: seq<nat>, cp: nat): (r: seq<nat>)
    ensures |r| == |ordered| + 1
  {
    if ordered == [] || Class(t, cp) == 0 then ordered + [cp]
    else
      var last := ordered[|ordered| - 1];
      if Class(t, last) == 0 || Class(t, last) <= Class(t, cp) then ordered + [cp]
      else Insert(t, ordered[..|ordered| - 1], cp) + [last]
  }

  function Reorder(t: Tables, s: seq<nat>): (r: seq<nat>)
    ensures |r| == |s|
  {
    if s == [] then [] else Insert(t, Reorder(t, s[..|s| - 1]), s[|s| - 1])
  }

  // Section 3.11 of Unicode 15.0: no mark follows one of a higher class.
  predicate InCanonicalOrder(t: Tables, s: seq<nat>) {
    forall k | 0 < k < |s| :: Class(t, s[k]) == 0 || Class(t, s[k - 1]) == 0 || Class(t, s[k - 1]) <= Class(t, s[k])
  }

  predicate MayFollow(t: Tables, last: nat, cp: nat) {
    Class(t, cp) == 0 || Class(t, last) == 0 || Class(t, last) <= Class(t, cp)
  }

  lemma AppendKeepsOrder(t: Tables, s: seq<nat>, cp: nat)
    requires InCanonicalOrder(t, s) && (s != [] ==> MayFollow(t, s[|s| - 1], cp))
    ensures InCanonicalOrder(t, s + [cp])
  {
  }

  lemma InsertUnfold(t: Tables, s: seq<nat>, cp: nat)
    ensures Insert(t, s, cp) ==
      if s == [] || MayFollow(t, s[|s| - 1], cp) then s + [cp] else Insert(t, s[..|s| - 1], cp) + [s[|s| - 1]]
  {
  }

  lemma {:induction false} InsertKeepsElements(t: Tables, s: seq<nat>, cp: nat)
    ensures multiset(Insert(t, s, cp)) == multiset(s) + multiset{cp}
    decreases |s|
  {
    if s != [] {
      InsertKeepsElements(t, s[..|s| - 1], cp);
      assert s == s[..|s| - 1] + [s[|s| - 1]];
    }
  }

  lemma {:induction false} InsertKeepsOrder(t: Tables, s: seq<nat>, cp: nat)
    requires InCanonicalOrder(t, s)
    ensures InCanonicalOrder(t, Insert(t, s, cp))
    ensures Insert(t, s, cp)[|s|] == cp || (s != [] && Insert(t, s, cp)[|s|] == s[|s| - 1])
    decreases |s|
  {
    hide Insert, Class;
    InsertUnfold(t, s, cp);
    if s == [] || MayFollow(t, s[|s| - 1], cp) {
      AppendKeepsOrder(t, s, cp);
    } else {
      var front, last := s[..|s| - 1], s[|s| - 1];
      InsertKeepsOrder(t, front, cp);
      if front != [] { assert MayFollow(t, front[|front| - 1], last) by { assert s[|s| - 2] == front[|front| - 1]; } }
      AppendKeepsOrder(t, Insert(t, front, cp), last);
    }
  }

  lemma {:induction false} ReorderOrders(t: Tables, s: seq<nat>)
    ensures InCanonicalOrder(t, Reorder(t, s)) && multiset(Reorder(t, s)) == multiset(s)
  {
    if s != [] {
      ReorderOrders(t, s[..|s| - 1]);
      InsertKeepsOrder(t, Reorder(t, s[..|s| - 1]), s[|s| - 1]);
      InsertKeepsElements(t, Reorder(t, s[..|s| - 1]), s[|s| - 1]);
      assert s == s[..|s| - 1] + [s[|s| - 1]];
    }
  }

  lemma OrderedFront(t: Tables, s: seq<nat>)
    requires InCanonicalOrder(t, s) && s != []
    ensures InCanonicalOrder(t, s[..|s| - 1])
  {
    hide Class;
  }

  lemma {:induction false} OrderedStays(t: Tables, s: seq<nat>)
    requires InCanonicalOrder(t, s)
    ensures Reorder(t, s) == s
  {
    hide Insert, Class;
    if s != [] {
      var front, last := s[..|s| - 1], s[|s| - 1];
      assert s == front + [last];
      OrderedFront(t, s);
      OrderedStays(t, front);
      InsertInOrder(t, front, last);
    }
  }

  lemma InsertInOrder(t: Tables, s: seq<nat>, cp: nat)
    requires InCanonicalOrder(t, s + [cp])
    ensures Insert(t, s, cp) == s + [cp]
  {
    hide Insert;
    InsertUnfold(t, s, cp);
    if s != [] {
      assert (s + [cp])[|s| - 1] == s[|s| - 1] && (s + [cp])[|s|] == cp;
      assert MayFollow(t, s[|s| - 1], cp);
    }
  }

  // Two marks of different classes may be inserted in either order.
  lemma {:induction false} InsertCommutes(t: Tables, ordered: seq<nat>, low: nat, high: nat)
    requires 0 < Class(t, low) < Class(t, high)
    ensures Insert(t, Insert(t, ordered, high), low) == Insert(t, Insert(t, ordered, low), high)
    decreases |ordered|
  {
    if ordered != [] {
      var front, last := ordered[..|ordered| - 1], ordered[|ordered| - 1];
      var c := Class(t, last);
      assert (ordered + [high])[..|ordered|] == ordered && (ordered + [low])[..|ordered|] == ordered;
      if c > Class(t, high) {
        InsertCommutes(t, front, low, high);
        assert (Insert(t, front, high) + [last])[..|ordered|] == Insert(t, front, high);
        assert (Insert(t, front, low) + [last])[..|ordered|] == Insert(t, front, low);
      }
    } else {
      assert [high][..0] == [];
    }
  }

  lemma {:induction false} ReorderPrefix(t: Tables, a: seq<nat>, cp: nat)
    ensures Reorder(t, a + [cp]) == Insert(t, Reorder(t, a), cp)
  {
    assert (a + [cp])[..|a|] == a;
  }

  // A mark may move back over marks of lower class without changing the reordering.
  lemma {:induction false} ReorderMoves(t: Tables, pre: seq<nat>, cp: nat, between: seq<nat>)
    requires forall k | 0 <= k < |between| :: 0 < Class(t, between[k]) < Class(t, cp)
    ensures Reorder(t, pre + [cp] + between) == Reorder(t, pre + between + [cp])
    decreases |between|
  {
    if between == [] {
      assert pre + [cp] + between == pre + [cp] && pre + between == pre;
    } else {
      var front, last := between[..|between| - 1], between[|between| - 1];
      ReorderMoves(t, pre, cp, front);
      assert pre + [cp] + between == pre + [cp] + front + [last];
      assert pre + between + [cp] == pre + front + [last] + [cp];
      ReorderPrefix(t, pre + [cp] + front, last);
      ReorderPrefix(t, pre + front, cp);
      ReorderPrefix(t, pre + front, last);
      ReorderPrefix(t, pre + front + [last], cp);
      InsertCommutes(t, Reorder(t, pre + front), last, cp);
    }
  }

  lemma {:induction false} ReorderConcat(t: Tables, a: seq<nat>, b: seq<nat>, tail: seq<nat>)
    requires Reorder(t, a) == Reorder(t, b)
    ensures Reorder(t, a + tail) == Reorder(t, b + tail)
    decreases |tail|
  {
    if tail == [] {
      assert a + tail == a && b + tail == b;
    } else {
      var front, last := tail[..|tail| - 1], tail[|tail| - 1];
      ReorderConcat(t, a, b, front);
      ReorderPrefix(t, a + front, last);
      ReorderPrefix(t, b + front, last);
      assert a + tail == a + front + [last] && b + tail == b + front + [last];
    }
  }

  // Swapping two adjacent marks of different classes is not seen.
  lemma ReorderIgnoresMarkOrder(t: Tables, pre: seq<nat>, x: nat, y: nat, post: seq<nat>)
    requires Class(t, x) != 0 && Class(t, y) != 0 && Class(t, x) != Class(t, y)
    ensures Reorder(t, pre + [x, y] + post) == Reorder(t, pre + [y, x] + post)
  {
    hide Class, Reorder;
    var low, high := if Class(t, x) < Class(t, y) then x else y, if Class(t, x) < Class(t, y) then y else x;
    ReorderMoves(t, pre, high, [low]);
    assert pre + [high] + [low] == pre + [high, low] && pre + [low] + [high] == pre + [low, high];
    ReorderConcat(t, pre + [x, y], pre + [y, x], post);
  }

  // NFD, the canonically ordered full decomposition.
  function Canonical(t: Tables, s: seq<nat>): seq<nat>
    requires Acyclic(t)
  {
    Reorder(t, DecomposeAll(t, s))
  }

  // ---------------------------------------------------------------------
  // Canonical composition
  // ---------------------------------------------------------------------

  function HangulCompose(first: nat, second: nat): Option<nat> {
    if L_BASE <= first < L_BASE + L_COUNT && V_BASE <= second < V_BASE + V_COUNT
    then Some(S_BASE + ((first - L_BASE) * V_COUNT + (second - V_BASE)) * T_COUNT)
    else if IsSyllable(first) && (first - S_BASE) % T_COUNT == 0 && T_BASE < second < T_BASE + T_COUNT
    then Some(first + (second - T_BASE))
    else None
  }

  function Composite(t: Tables, first: nat, second: nat): Option<nat> {
    if HangulCompose(first, second).Some? then HangulCompose(first, second)
    else if (first, second) in t.composition then Some(t.composition[(first, second)])
    else None
  }

  // A composite decomposes to what its two parts decompose to.
  lemma {:induction false} CompositeDecomposes(t: Tables, first: nat, second: nat)
    requires Sound(t) && Composite(t, first, second).Some? && Atomic(t, second)
    ensures Decompose(t, Composite(t, first, second).value) == Decompose(t, first) + [second]
  {
    if HangulCompose(first, second).Some? {
      HangulInverse(first, second);
    } else {
      var c := t.composition[(first, second)];
      assert DecomposeChildren(t, c, 2) == DecomposeChildren(t, c, 1) + Decompose(t, second);
      assert DecomposeChildren(t, c, 1) == DecomposeChildren(t, c, 0) + Decompose(t, first);
    }
  }

  lemma HangulInverse(first: nat, second: nat)
    requires HangulCompose(first, second).Some?
    ensures IsSyllable(HangulCompose(first, second).value)
    ensures HangulParts(HangulCompose(first, second).value) ==
      (if IsSyllable(first) then HangulParts(first) else [first]) + [second]
  {
    if L_BASE <= first < L_BASE + L_COUNT && V_BASE <= second < V_BASE + V_COUNT {
      SyllableIndexLV(first - L_BASE, second - V_BASE);
    } else {
      SyllableIndexT(first - S_BASE, second - T_BASE);
    }
  }

  lemma SyllableIndexLV(l: nat, v: nat)
    requires l < 19 && v < 21
    ensures var index := (l * 21 + v) * 28;
      index < 11172 && index / 588 == l && (index % 588) / 28 == v && index % 28 == 0
  {
    var index := 588 * l + 28 * v;
    assert (l * 21 + v) * 28 == index;
    assert index / 588 == l && index % 588 == 28 * v;
  }

  lemma SyllableIndexT(index: nat, k: nat)
    requires index % 28 == 0 && 0 < k < 28
    ensures (index + k) / 588 == index / 588 && (index + k) % 28 == k
    ensures ((index + k) % 588) / 28 == (index % 588) / 28
    ensures index < 11172 ==> index + k < 11172
  {
    var q := index / 28;
    assert index == 28 * q && (index + k) / 28 == q;
    var a, b := q / 21, q % 21;
    assert index == 588 * a + 28 * b && 28 * b + k < 588;
    assert (index + k) / 588 == a && (index + k) % 588 == 28 * b + k;
    assert index / 588 == a && index % 588 == 28 * b;
  }

  lemma ComposeFirst(t: Tables, s: seq<nat>)
    requires s != []
    ensures Compose(t, s[..1]) == Composing([s[0]], 0, s[0], Class(t, s[0]))
  {
    assert s[..1] == [s[0]];
  }

  // The variables of the composition loop.
  datatype Composing = Composing(result: seq<nat>, starterPosition: nat, starter: nat, lastClass: nat)

  function ComposeStep(t: Tables, c: Composing, cp: nat): (c': Composing)
    requires c.starterPosition < |c.result|
    ensures c'.starterPosition < |c'.result|
  {
    var composite := Composite(t, c.starter, cp);
    if composite.Some? && (c.lastClass == 0 || c.lastClass < Class(t, cp))
    then c.(result := c.result[c.starterPosition := composite.value], starter := composite.value)
    else if Class(t, cp) == 0 then Composing(c.result + [cp], |c.result|, cp, 0)
    else Composing(c.result + [cp], c.starterPosition, c.starter, Class(t, cp))
  }

  // The state after composing a non-empty sequence.
  function Compose(t: Tables, s: seq<nat>): (c: Composing)
    requires s != []
    ensures c.starterPosition < |c.result|
  {
    if |s| == 1 then Composing(s, 0, s[0], Class(t, s[0]))
    else ComposeStep(t, Compose(t, s[..|s| - 1]), s[|s| - 1])
  }

  function ComposeAll(t: Tables, ordered: seq<nat>): seq<nat> {
    if ordered == [] then [] else Compose(t, ordered).result
  }

  function NFC(t: Tables, s: seq<nat>): seq<nat>
    requires Acyclic(t)
  {
    ComposeAll(t, Canonical(t, s))
  }

  // ---------------------------------------------------------------------
  // Composition is undone by decomposing and reordering
  // ---------------------------------------------------------------------

  // The marks that the loop has kept behind the current starter.
  function Between(c: Composing): seq<nat>
    requires c.starterPosition < |c.result|
  {
    c.result[c.starterPosition + 1..]
  }

  predicate MarksInOrder(t: Tables, marks: seq<nat>) {
    && (forall k | 0 <= k < |marks| :: Class(t, marks[k]) > 0)
    && (forall j, k | 0 <= j < k < |marks| :: Class(t, marks[j]) <= Class(t, marks[k]))
  }

  // The loop invariant after composing the canonically ordered prefix `seen`.
  ghost predicate Composed(t: Tables, c: Composing, seen: seq<nat>)
    requires Acyclic(t)
  {
    && seen != [] && c.starterPosition < |c.result|
    && c.result[c.starterPosition] == c.starter
    && AllAtomic(t, Between(c)) && MarksInOrder(t, Between(c))
    && (Between(c) != [] ==>
          && c.lastClass == Class(t, Between(c)[|Between(c)| - 1])
          && c.lastClass <= Class(t, seen[|seen| - 1]))
    && Canonical(t, c.result) == seen
  }

  lemma {:induction false} ComposeStepComposed(t: Tables, c: Composing, seen: seq<nat>, cp: nat)
    requires Sound(t) && Composed(t, c, seen)
    requires Atomic(t, cp) && InCanonicalOrder(t, seen + [cp])
    ensures Composed(t, ComposeStep(t, c, cp), seen + [cp])
  {
    var composite := Composite(t, c.starter, cp);
    if composite.Some? && (c.lastClass == 0 || c.lastClass < Class(t, cp)) {
      CompositionUndone(t, c, seen, cp);
    } else {
      AppendComposed(t, c, seen, cp);
    }
  }

  lemma {:induction false} AppendComposed(t: Tables, c: Composing, seen: seq<nat>, cp: nat)
    requires Sound(t) && Composed(t, c, seen)
    requires Atomic(t, cp) && InCanonicalOrder(t, seen + [cp])
    requires Composite(t, c.starter, cp).None? || !(c.lastClass == 0 || c.lastClass < Class(t, cp))
    ensures Composed(t, ComposeStep(t, c, cp), seen + [cp])
  {
    hide Composite, Canonical, Acyclic, Class, Atomic, MarksInOrder, AllAtomic;
    AppendUndone(t, c, seen, cp);
    if Class(t, cp) == 0 {
      NoMarks(t);
      assert Between(ComposeStep(t, c, cp)) == [];
    } else {
      assert Between(ComposeStep(t, c, cp)) == Between(c) + [cp];
      assert MayFollow(t, seen[|seen| - 1], cp) by {
        assert (seen + [cp])[|seen| - 1] == seen[|seen| - 1] && (seen + [cp])[|seen|] == cp;
      }
      OneMoreMark(t, Between(c), seen[|seen| - 1], cp);
    }
  }

  lemma NoMarks(t: Tables)
    ensures AllAtomic(t, []) && MarksInOrder(t, [])
  {
  }

  lemma OneMoreMark(t: Tables, marks: seq<nat>, last: nat, cp: nat)
    requires AllAtomic(t, marks) && MarksInOrder(t, marks) && Atomic(t, cp) && Class(t, cp) > 0
    requires marks != [] ==> Class(t, marks[|marks| - 1]) <= Class(t, last) && MayFollow(t, last, cp)
    ensures AllAtomic(t, marks + [cp]) && MarksInOrder(t, marks + [cp])
  {
    if marks != [] {
      assert Class(t, marks[|marks| - 1]) > 0;
    }
  }

  lemma {:induction false} AppendUndone(t: Tables, c: Composing, seen: seq<nat>, cp: nat)
    requires Acyclic(t) && Atomic(t, cp) && Canonical(t, c.result) == seen && InCanonicalOrder(t, seen + [cp])
    ensures Canonical(t, c.result + [cp]) == seen + [cp]
  {
    DecomposeAllConcat(t, c.result, [cp]);
    DecomposeAllOne(t, cp);
    ReorderPrefix(t, DecomposeAll(t, c.result), cp);
    InsertInOrder(t, seen, cp);
  }

  lemma {:induction false} CompositionUndone(t: Tables, c: Composing, seen: seq<nat>, cp: nat)
    requires Sound(t) && Composed(t, c, seen)
    requires Atomic(t, cp) && InCanonicalOrder(t, seen + [cp])
    requires Composite(t, c.starter, cp).Some? && (c.lastClass == 0 || c.lastClass < Class(t, cp))
    ensures Composed(t, ComposeStep(t, c, cp), seen + [cp])
  {
    hide DecomposeAll, Decompose, Reorder, Insert, Composite, Canonical, Acyclic, Class;
    var composite := Composite(t, c.starter, cp).value;
    var front, marks := c.result[..c.starterPosition], Between(c);
    assert c.result == front + [c.starter] + marks;
    MarksBelow(t, c, seen, cp);
    ResultUndone(t, front, c.starter, cp, marks, seen);
    var c' := ComposeStep(t, c, cp);
    assert c'.result == front + [composite] + marks && Between(c') == marks;
  }

  lemma MarksBelow(t: Tables, c: Composing, seen: seq<nat>, cp: nat)
    requires Acyclic(t) && Composed(t, c, seen) && InCanonicalOrder(t, seen + [cp])
    requires c.lastClass == 0 || c.lastClass < Class(t, cp)
    ensures forall k | 0 <= k < |Between(c)| :: 0 < Class(t, Between(c)[k]) < Class(t, cp)
    ensures Between(c) != [] ==> c.lastClass <= Class(t, cp)
  {
  }

  lemma {:induction false} ResultUndone(t: Tables, front: seq<nat>, starter: nat, cp: nat, marks: seq<nat>,
          seen: seq<nat>)
    requires Sound(t) && Atomic(t, cp) && Composite(t, starter, cp).Some?
    requires AllAtomic(t, marks) && forall k | 0 <= k < |marks| :: 0 < Class(t, marks[k]) < Class(t, cp)
    requires InCanonicalOrder(t, seen + [cp]) && Canonical(t, front + [starter] + marks) == seen
    ensures Canonical(t, front + [Composite(t, starter, cp).value] + marks) == seen + [cp]
  {
    hide DecomposeAll, Decompose, Reorder, Insert, InCanonicalOrder, Composite, Atomic;
    var pre := DecomposeAll(t, front) + Decompose(t, starter);
    CompositeDecomposes(t, starter, cp);
    DecomposeAround(t, front, starter, marks);
    DecomposeAround(t, front, Composite(t, starter, cp).value, marks);
    assert DecomposeAll(t, front + [Composite(t, starter, cp).value] + marks) == pre + [cp] + marks;
    ReorderMoves(t, pre, cp, marks);
    ReorderPrefix(t, pre + marks, cp);
    InsertInOrder(t, seen, cp);
  }

  lemma {:induction false} DecomposeAround(t: Tables, front: seq<nat>, cp: nat, marks: seq<nat>)
    requires Acyclic(t) && AllAtomic(t, marks)
    ensures DecomposeAll(t, front + [cp] + marks) == DecomposeAll(t, front) + Decompose(t, cp) + marks
  {
    DecomposeAllConcat(t, front + [cp], marks);
    DecomposeAllConcat(t, front, [cp]);
    DecomposeAllOne(t, cp);
    AtomicStays(t, marks);
  }

  lemma CanonicalStays(t: Tables, s: seq<nat>)
    requires Sound(t) && AllAtomic(t, s) && InCanonicalOrder(t, s)
    ensures Canonical(t, s) == s
  {
    hide DecomposeAll, Reorder, AllAtomic, InCanonicalOrder;
    AtomicStays(t, s);
    OrderedStays(t, s);
  }

  lemma ComposeSingle(t: Tables, s: seq<nat>)
    requires Sound(t) && |s| == 1 && AllAtomic(t, s) && InCanonicalOrder(t, s)
    ensures Composed(t, Compose(t, s), s)
  {
    hide Canonical, ComposeStep, Class, Atomic, InCanonicalOrder;
    CanonicalStays(t, s);
    var c := Compose(t, s);
    assert c == Composing(s, 0, s[0], Class(t, s[0]));
    assert Between(c) == [];
  }

  lemma {:induction false} ComposeIsUndone(t: Tables, s: seq<nat>)
    requires Sound(t) && s != [] && AllAtomic(t, s) && InCanonicalOrder(t, s)
    ensures Composed(t, Compose(t, s), s)
  {
    hide Composed, Compose, Sound, Atomic, MayFollow;
    if |s| == 1 {
      ComposeSingle(t, s);
    } else {
      ComposeIsUndone(t, s[..|s| - 1]);
      ComposeLast(t, s);
    }
  }

  lemma {:induction false} ComposeLast(t: Tables, s: seq<nat>)
    requires Sound(t) && |s| > 1 && AllAtomic(t, s) && InCanonicalOrder(t, s)
    requires Composed(t, Compose(t, s[..|s| - 1]), s[..|s| - 1])
    ensures Composed(t, Compose(t, s), s)
  {
    hide Composed, ComposeStep;
    var front, last := s[..|s| - 1], s[|s| - 1];
    assert s == front + [last];
    ComposeStepComposed(t, Compose(t, front), front, last);
  }

  // ---------------------------------------------------------------------
  // Main results
  // ---------------------------------------------------------------------

  lemma {:induction false} CanonicalIsAtomic(t: Tables, s: seq<nat>)
    requires Sound(t)
    ensures AllAtomic(t, Canonical(t, s)) && InCanonicalOrder(t, Canonical(t, s))
  {
    DecomposeAllIsAtomic(t, s);
    ReorderOrders(t, DecomposeAll(t, s));
    forall k | 0 <= k < |Canonical(t, s)|
      ensures Atomic(t, Canonical(t, s)[k])
    {
      assert Canonical(t, s)[k] in multiset(DecomposeAll(t, s));
    }
  }

  // Normalizing keeps the canonical decomposition.
  lemma {:induction false} NFCKeepsCanonical(t: Tables, s: seq<nat>)
    requires Sound(t)
    ensures Canonical(t, NFC(t, s)) == Canonical(t, s)
  {
    CanonicalIsAtomic(t, s);
    if Canonical(t, s) != [] {
      ComposeIsUndone(t, Canonical(t, s));
    }
  }

  lemma {:induction false} NFCIdempotent(t: Tables, s: seq<nat>)
    requires Sound(t)
    ensures NFC(t, NFC(t, s)) == NFC(t, s)
  {
    NFCKeepsCanonical(t, s);
  }

  // Two strings normalize alike exactly when they are canonically equivalent.
  lemma {:induction false} NFCDecidesEquivalence(t: Tables, a: seq<nat>, b: seq<nat>)
    requires Sound(t)
    ensures NFC(t, a) == NFC(t, b) <==> Canonical(t, a) == Canonical(t, b)
  {
    NFCKeepsCanonical(t, a);
    NFCKeepsCanonical(t, b);
  }

  // NFC of the canonical decomposition is NFC of the string.
  lemma {:induction false} NFCOfCanonical(t: Tables, s: seq<nat>)
    requires Sound(t)
    ensures Canonical(t, Canonical(t, s)) == Canonical(t, s)
    ensures NFC(t, Canonical(t, s)) == NFC(t, s)
  {
    CanonicalIsAtomic(t, s);
    AtomicStays(t, Canonical(t, s));
    OrderedStays(t, Canonical(t, s));
  }

  // ---------------------------------------------------------------------
  // normalize_nfc
  // ---------------------------------------------------------------------

  method DecomposeScalar(t: Tables, cp: nat, output: seq<nat>) returns (output': seq<nat>)
    requires Acyclic(t)
    ensures output' == output + Decompose(t, cp)
    decreases Rank(t)(cp)
  {
    if IsSyllable(cp) {
      var index := cp - S_BASE;
      output' := output + [L_BASE + index / N_COUNT];
      output' := output' + [V_BASE + (index % N_COUNT) / T_COUNT];
      var trailing := T_BASE + index % T_COUNT;
      if trailing != T_BASE {
        output' := output' + [trailing];
      }
      return;
    }
    if cp !in t.decomposition {
      output' := output + [cp];
      return;
    }
    var mapped := t.decomposition[cp];
    output' := output;
    for k := 0 to |mapped|
      invariant output' == output + DecomposeChildren(t, cp, k)
    {
      output' := DecomposeScalar(t, mapped[k], output');
    }
  }

  // The three loops of normalize_nfc.
  method DecomposeString(t: Tables, value: seq<nat>) returns (decomposed: seq<nat>)
    requires Acyclic(t)
    ensures decomposed == DecomposeAll(t, value)
  {
    decomposed := [];
    for k := 0 to |value|
      invariant decomposed == DecomposeAll(t, value[..k])
    {
      assert value[..k + 1][..k] == value[..k];
      decomposed := DecomposeScalar(t, value[k], decomposed);
    }
    assert value[..|value|] == value;
  }

  method InsertMark(t: Tables, ordered: seq<nat>, cp: nat) returns (r: seq<nat>)
    ensures r == Insert(t, ordered, cp)
  {
    var currentClass := Class(t, cp);
    var position := |ordered|;
    assert ordered[..position] == ordered && ordered[position..] == [];
    if currentClass != 0 {
      while position > 0
        invariant 0 <= position <= |ordered|
        invariant Insert(t, ordered, cp) == Insert(t, ordered[..position], cp) + ordered[position..]
      {
        var previousClass := Class(t, ordered[position - 1]);
        if previousClass == 0 || previousClass <= currentClass {
          break;
        }
        assert ordered[..position][..position - 1] == ordered[..position - 1];
        position := position - 1;
      }
    }
    r := ordered[..position] + [cp] + ordered[position..];
  }

  method ReorderString(t: Tables, decomposed: seq<nat>) returns (ordered: seq<nat>)
    ensures ordered == Reorder(t, decomposed)
  {
    ordered := [];
    for k := 0 to |decomposed|
      invariant ordered == Reorder(t, decomposed[..k])
    {
      assert decomposed[..k + 1][..k] == decomposed[..k];
      ordered := InsertMark(t, ordered, decomposed[k]);
    }
    assert decomposed[..|decomposed|] == decomposed;
  }
}
