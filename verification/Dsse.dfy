/** The pre-authentication encoding of DSSE v1 (src/makoto/dsse.py, `pae`).

    A byte string is a sequence of characters below 256. */
module Dsse {
  import opened Decimal

  function Pae(payloadType: string, payload: string): string {
    "DSSEv1" + " " + Numeral(|payloadType|) + " " + payloadType + " " + Numeral(|payload|) + " " + payload
  }

  // Behind a run of digits, the first space is the separator.
  lemma SpaceBehindDigits(a: string, x: string, k: nat)
    requires AllDigits(a) && k <= |a|
    ensures (a + " " + x)[k] == ' ' <==> k == |a|
  {
    if k < |a| {
      assert (a + " " + x)[k] == a[k] && IsDigit(a[k]);
    }
  }

  // A run of digits and what follows the space behind it can be told apart.
  lemma {:induction false} DigitsThenSpace(a: string, x: string, b: string, y: string)
    requires AllDigits(a) && AllDigits(b) && a + " " + x == b + " " + y
    ensures a == b && x == y
  {
    var k := if |a| <= |b| then |a| else |b|;
    SpaceBehindDigits(a, x, k);
    SpaceBehindDigits(b, y, k);
    SplitAfter(a, x);
    SplitAfter(b, y);
  }

  lemma SplitAfter(a: string, x: string)
    ensures (a + " " + x)[..|a|] == a && (a + " " + x)[|a| + 1..] == x
  {
  }

  function Counted(s: string): string {
    Numeral(|s|) + " " + s
  }

  lemma PaeParts(payloadType: string, payload: string)
    ensures Pae(payloadType, payload) == "DSSEv1" + " " + (Counted(payloadType) + " " + Counted(payload))
  {
    hide Numeral;
    var m, n := Numeral(|payloadType|), Numeral(|payload|);
    var tail := payloadType + " " + (n + " " + payload);
    assert Counted(payloadType) + " " + Counted(payload) == m + " " + tail;
    assert "DSSEv1" + " " + m + " " + payloadType + " " + n + " " + payload == "DSSEv1" + " " + (m + " " + tail);
  }

  // A counted string can be told apart from whatever follows it.
  lemma CountedThenSpace(s: string, x: string, t: string, y: string)
    requires Counted(s) + " " + x == Counted(t) + " " + y
    ensures s == t && x == y
  {
    hide Numeral;
    var tail1, tail2 := s + " " + x, t + " " + y;
    assert Counted(s) + " " + x == Numeral(|s|) + " " + tail1;
    assert Counted(t) + " " + y == Numeral(|t|) + " " + tail2;
    DigitsThenSpace(Numeral(|s|), tail1, Numeral(|t|), tail2);
    NumeralInjective(|s|, |t|);
    SplitAfter(s, x);
    SplitAfter(t, y);
  }

  // The encoding is injective on all pairs of byte strings, spaces and digits included.
  lemma {:induction false} PaeInjective(t1: string, p1: string, t2: string, p2: string)
    requires Pae(t1, p1) == Pae(t2, p2)
    ensures t1 == t2 && p1 == p2
  {
    hide Numeral, Pae;
    PaeParts(t1, p1);
    PaeParts(t2, p2);
    SplitAfter("DSSEv1", Counted(t1) + " " + Counted(p1));
    SplitAfter("DSSEv1", Counted(t2) + " " + Counted(p2));
    CountedThenSpace(t1, Counted(p1), t2, Counted(p2));
    DigitsThenSpace(Numeral(|p1|), p1, Numeral(|p2|), p2);
  }

  // The header, the separators and the numerals, as in the repository's own
  // vector of 28 and 2 bytes.
  lemma PaeVector(payloadType: string, payload: string)
    requires |payloadType| == 28 && |payload| == 2
    ensures Pae(payloadType, payload) == "DSSEv1 28 " + payloadType + " 2 " + payload
  {
    assert Numeral(2) == "2" && Numeral(28) == "28" by {
      assert Numeral(2) == [DigitChar(2)] && Numeral(28) == [DigitChar(2)] + [DigitChar(8)];
    }
    assert "DSSEv1" + " " + "28" + " " == "DSSEv1 28 ";
    assert " " + "2" + " " == " 2 ";
    Regroup("DSSEv1" + " " + "28" + " ", payloadType, " ", "2", " ", payload);
  }

  lemma Regroup(a: string, b: string, c: string, d: string, e: string, f: string)
    ensures a + b + c + d + e + f == a + b + (c + d + e) + f
  {
  }
}
