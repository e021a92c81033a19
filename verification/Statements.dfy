/** Statements as the verifier sees them after schema validation. */
module Statements {
  import opened Wrappers

  // A SHA-256 in lower-case hexadecimal compares like the number it spells.
  type Digest = nat

  datatype Version = V02 | V03

  datatype Kind = Origin | Transform

  datatype Subject = Subject(name: string, digest: Digest)

  // An input of a transform, with the provenance it declares.
  datatype Input = Input(name: string, digest: Digest, statementDigest: Digest, subjectName: string,
    entryName: Option<string>)

  datatype Target = PredicateTarget | ArtifactTarget

  datatype Profile = Profile(id: string, digest: Digest, closureDigest: Digest, target: Target, subjectName: string,
    mediaType: string)

  datatype Statement = Statement(
    version: Version, kind: Kind, eventId: Option<string>,
    subjects: seq<Subject>, inputs: seq<Input>, profiles: seq<Profile>,
    sourceKind: Option<string>, sourceUri: Option<string>, operationType: Option<string>)

  // (statement digest, subject name, subject digest)
  type SubjectId = (Digest, string, Digest)

  // (manifest statement digest, manifest subject name, entry name)
  type EntryId = (Digest, string, string)

  predicate Ascending(s: seq<Digest>) {
    forall i, j | 0 <= i < j < |s| :: s[i] < s[j]
  }

  function Elements(s: seq<Digest>): set<Digest> {
    set x | x in s
  }

  lemma {:induction false} Smallest(s: set<Digest>) returns (m: Digest)
    requires s != {}
    ensures m in s && forall x | x in s :: m <= x
  {
    var x: Digest :| x in s;
    if s == {x} {
      m := x;
    } else {
      m := Smallest(s - {x});
      assert s == (s - {x}) + {x};
      if x < m { m := x; }
    }
  }

  lemma ElementsAppend(s: seq<Digest>, x: Digest)
    ensures Elements(s + [x]) == Elements(s) + {x}
  {
    assert forall y | y in s + [x] :: y in s || y == x;
    assert (s + [x])[|s|] == x;
    forall y | y in s ensures y in s + [x] {
      var i :| 0 <= i < |s| && s[i] == y;
      assert (s + [x])[i] == y;
    }
  }

  lemma AscendingAppend(s: seq<Digest>, x: Digest)
    requires Ascending(s) && forall i | 0 <= i < |s| :: s[i] < x
    ensures Ascending(s + [x])
  {
  }

  lemma EmptyAscending()
    ensures Ascending([]) && Elements([]) == {}
  {
  }

  lemma EmptyElements(s: seq<Digest>)
    ensures s == [] <==> Elements(s) == {}
  {
    if s != [] { assert s[0] in Elements(s); }
  }

  lemma {:induction false} AscendingUnique(a: seq<Digest>, b: seq<Digest>)
    requires Ascending(a) && Ascending(b) && Elements(a) == Elements(b)
    ensures a == b
    decreases |a|
  {
    EmptyElements(a);
    EmptyElements(b);
    if a != [] {
      var la, lb := a[|a| - 1], b[|b| - 1];
      LastIsGreatest(a);
      LastIsGreatest(b);
      assert la in Elements(a) && lb in Elements(b);
      assert la in Elements(b) && lb in Elements(a);
      assert la <= lb && lb <= la;
      var fa, fb := a[..|a| - 1], b[..|b| - 1];
      WithoutLast(a);
      WithoutLast(b);
      AscendingUnique(fa, fb);
      assert a == fa + [la] && b == fb + [lb];
    }
  }

  lemma LastIsGreatest(a: seq<Digest>)
    requires Ascending(a) && a != []
    ensures a[|a| - 1] in Elements(a) && forall x | x in Elements(a) :: x <= a[|a| - 1]
  {
  }

  lemma WithoutLast(a: seq<Digest>)
    requires Ascending(a) && a != []
    ensures Elements(a[..|a| - 1]) == Elements(a) - {a[|a| - 1]} && Ascending(a[..|a| - 1])
  {
    ElementsAppend(a[..|a| - 1], a[|a| - 1]);
    assert a == a[..|a| - 1] + [a[|a| - 1]];
  }

  // Python's sorted() over distinct digests.
  method Sorted(s: set<Digest>) returns (r: seq<Digest>)
    ensures Ascending(r) && Elements(r) == s && |r| == |s|
  {
    hide Ascending, Elements;
    EmptyAscending();
    r := [];
    var rest := s;
    while rest != {}
      invariant rest <= s && Ascending(r) && Elements(r) == s - rest && |r| == |s| - |rest|
      invariant forall i, y | 0 <= i < |r| && y in rest :: r[i] < y
      decreases rest
    {
      ghost var least := Smallest(rest);
      var m :| m in rest && forall x | x in rest :: m <= x;
      ElementsAppend(r, m);
      AscendingAppend(r, m);
      r := r + [m];
      rest := rest - {m};
    }
  }
}
