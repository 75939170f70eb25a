/** Strings as the components compare, search and join them. */
module Text {

  /** Lexicographic order by code point, which is also the byte order of the UTF-8 encodings. */
  predicate AtMost(a: string, b: string) {
    a == [] || (b != [] && (a[0] < b[0] || (a[0] == b[0] && AtMost(a[1..], b[1..]))))
  }

  lemma {:induction false} AtMostIsTotal(a: string, b: string)
    ensures AtMost(a, b) || AtMost(b, a)
    ensures AtMost(a, b) && AtMost(b, a) ==> a == b
    decreases |a|
  {
    if a != [] && b != [] && a[0] == b[0] {
      AtMostIsTotal(a[1..], b[1..]);
      assert a == [a[0]] + a[1..] && b == [b[0]] + b[1..];
    }
  }

  /** a is a prefix of b, or has the smaller character where they first differ. */
  ghost predicate Precedes(a: string, b: string) {
    a <= b || exists i: nat :: i < |a| && i < |b| && a[..i] == b[..i] && a[i] < b[i]
  }

  lemma {:induction false} AtMostIsLexicographic(a: string, b: string)
    ensures AtMost(a, b) <==> Precedes(a, b)
    decreases |a|
  {
    if a != [] && b != [] {
      var x, y := a[1..], b[1..];
      AtMostIsLexicographic(x, y);
      assert a == [a[0]] + x && b == [b[0]] + y;
      if a[0] == b[0] {
        SharedHead(a[0], x, y);
      } else if a[0] < b[0] {
        assert a[..0] == b[..0];
      }
    }
  }

  lemma SharedHead(c: char, x: string, y: string)
    ensures Precedes([c] + x, [c] + y) <==> Precedes(x, y)
  {
    var a, b := [c] + x, [c] + y;
    assert a <= b <==> x <= y by {
      assert a[1..] == x && b[1..] == y;
    }
    forall i: nat | i < |x| && i < |y|
      ensures (a[..i + 1] == b[..i + 1] <==> x[..i] == y[..i]) && a[i + 1] == x[i] && b[i + 1] == y[i]
    {
      assert a[..i + 1] == [c] + x[..i] && b[..i + 1] == [c] + y[..i];
      assert a[..i + 1][1..] == x[..i] && b[..i + 1][1..] == y[..i];
    }
    if i: nat :| i < |a| && i < |b| && a[..i] == b[..i] && a[i] < b[i] {
      assert i > 0 && x[i - 1] < y[i - 1];
    }
  }

  /** The same pair for (a, b) and (b, a): smaller identifier first. */
  function CanonicalPair(a: string, b: string): (string, string) {
    if AtMost(a, b) then (a, b) else (b, a)
  }

  /** The key is in lexicographic order, whatever the order given, and determines the two identifiers. */
  lemma CanonicalPairIsUnordered(a: string, b: string, c: string, d: string)
    ensures CanonicalPair(a, b) == CanonicalPair(b, a)
    ensures Precedes(CanonicalPair(a, b).0, CanonicalPair(a, b).1)
    ensures CanonicalPair(a, b) == CanonicalPair(c, d) <==> ((a == c && b == d) || (a == d && b == c))
  {
    AtMostIsTotal(a, b);
    AtMostIsTotal(c, d);
    AtMostIsLexicographic(a, b);
    AtMostIsLexicographic(b, a);
  }

  predicate OccursAt(text: string, part: string, i: nat) {
    i + |part| <= |text| && text[i..i + |part|] == part
  }

  predicate Contains(text: string, part: string) {
    exists i: nat :: i <= |text| && OccursAt(text, part, i)
  }
}
