/** Predicates and functions on sequences and sets that several components share. */
module Collections {

  ghost predicate Distinct<T>(s: seq<T>) {
    forall i, j :: 0 <= i < j < |s| ==> s[i] != s[j]
  }

  ghost predicate Increasing(s: seq<nat>) {
    forall i, j :: 0 <= i < j < |s| ==> s[i] < s[j]
  }

  function Flatten<T>(lists: seq<seq<T>>): seq<T> {
    if lists == [] then [] else Flatten(lists[..|lists| - 1]) + lists[|lists| - 1]
  }

  lemma NothingFlattened<T>(lists: seq<seq<T>>)
    ensures Flatten(lists[..0]) == []
  {
  }

  lemma FlattenExtends<T>(lists: seq<seq<T>>, n: nat)
    requires n < |lists|
    ensures Flatten(lists[..n + 1]) == Flatten(lists[..n]) + lists[n]
  {
    assert lists[..n + 1][..n] == lists[..n];
  }

  lemma {:induction false} FlattenedPrefix<T>(lists: seq<seq<T>>, k: nat)
    requires k <= |lists|
    ensures Flatten(lists[..k]) <= Flatten(lists)
    decreases |lists| - k
  {
    if k == |lists| {
      assert lists[..k] == lists;
    } else {
      FlattenExtends(lists, k);
      FlattenedPrefix(lists, k + 1);
    }
  }

  lemma FlattenLast<T>(lists: seq<seq<T>>, last: seq<T>)
    ensures Flatten(lists + [last]) == Flatten(lists) + last
  {
    assert (lists + [last])[..|lists|] == lists;
  }

  lemma NoLists<T>()
    ensures Flatten<T>([]) == []
  {
  }

  lemma {:induction false} FlattenConcat<T>(a: seq<seq<T>>, b: seq<seq<T>>)
    ensures Flatten(a + b) == Flatten(a) + Flatten(b)
    decreases |b|
  {
    hide Flatten;
    if b == [] {
      NoLists<T>();
      assert a + b == a;
    } else {
      var front, last := b[..|b| - 1], b[|b| - 1];
      FlattenConcat(a, front);
      FlattenLast(front, last);
      FlattenLast(a + front, last);
      Regroup(a, front, last);
      assert b == front + [last];
    }
  }

  lemma Regroup<T>(a: seq<seq<T>>, front: seq<seq<T>>, last: seq<T>)
    ensures a + (front + [last]) == (a + front) + [last]
  {
  }

  lemma SubsetSize<T>(a: set<T>, b: set<T>)
    requires a <= b
    ensures |a| <= |b|
  {
    assert b == a + (b - a);
  }
}
