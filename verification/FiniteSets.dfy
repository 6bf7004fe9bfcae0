/** Finite sets and sequences without repetition. */
module FiniteSets {

  lemma AboveAll(s: set<int>) returns (x: int)
    ensures forall y | y in s :: y < x
  {
    x := 0;
    if y :| y in s {
      x := AboveAll(s - {y});
      x := if x <= y then y + 1 else x;
      assert forall z | z in s :: z == y || z in s - {y};
    }
  }

  lemma NoElements(s: set<int>)
    requires forall x :: x !in s
    ensures s == {}
  {
    assert s == set x | x in s && x > 0;
  }

  lemma RemoveOne<T>(s: set<T>, x: T)
    requires x in s
    ensures |s - {x}| == |s| - 1
  {
  }

  ghost predicate NoDup<T>(s: seq<T>) {
    forall i, j | 0 <= i < j < |s| :: s[i] != s[j]
  }

  lemma NoDupJoin<T>(a: seq<T>, b: seq<T>)
    requires NoDup(a) && NoDup(b) && forall x | x in a :: x !in b
    ensures NoDup(a + b)
  {
    forall i, j | 0 <= i < j < |a + b|
      ensures (a + b)[i] != (a + b)[j]
    {
      assert i < |a| ==> a[i] in a;
      assert |a| <= j ==> b[j - |a|] in b;
    }
  }

  lemma SubsetSize<T>(xs: set<T>, ys: set<T>)
    requires xs <= ys
    ensures |xs| <= |ys| && (|xs| == |ys| <==> xs == ys)
  {
    assert ys == xs + (ys - xs);
  }
}
