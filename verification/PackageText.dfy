/** Texts, their order, and lists sorted by a text. */
module Texts {
  import opened Sorting

  /** The order in which texts are sorted: character by character. */
  predicate Leq(a: string, b: string) {
    a == [] || (b != [] && (a[0] < b[0] || (a[0] == b[0] && Leq(a[1..], b[1..]))))
  }

  /** The texts agree before k. */
  ghost predicate AgreeTo(a: string, b: string, k: nat) {
    k <= |a| && k <= |b| && forall j :: 0 <= j < k ==> a[j] == b[j]
  }

  /** They first differ at k, and a has the smaller character there. */
  ghost predicate SmallerAt(a: string, b: string, k: nat) {
    k < |a| && k < |b| && AgreeTo(a, b, k) && a[k] < b[k]
  }

  /** a comes first just if it is the beginning of b, or has the smaller character
      where they first differ. */
  lemma {:induction false} LeqIff(a: string, b: string)
    ensures Leq(a, b) <==> AgreeTo(a, b, |a|) || exists k :: SmallerAt(a, b, k)
  {
    if a != [] && b != [] {
      if a[0] == b[0] {
        LeqIff(a[1..], b[1..]);
        OneLonger(a, b, |a| - 1);
        forall k: nat | k < |a| && k < |b|
          ensures SmallerAt(a, b, k) <==> k > 0 && SmallerAt(a[1..], b[1..], k - 1)
        {
          if k > 0 {
            OneLonger(a, b, k - 1);
          }
        }
        forall k: nat | SmallerAt(a[1..], b[1..], k)
          ensures SmallerAt(a, b, k + 1)
        {
          OneLonger(a, b, k);
        }
      } else {
        assert forall k :: SmallerAt(a, b, k) ==> k == 0;
        assert SmallerAt(a, b, 0) <==> a[0] < b[0];
      }
    }
  }

  lemma OneLonger(a: string, b: string, k: nat)
    requires a != [] && b != [] && a[0] == b[0]
    ensures AgreeTo(a, b, k + 1) <==> AgreeTo(a[1..], b[1..], k)
  {
    if AgreeTo(a[1..], b[1..], k) {
      forall j | 0 <= j < k + 1
        ensures a[j] == b[j]
      {
        if j > 0 {
          assert a[1..][j - 1] == b[1..][j - 1];
        }
      }
    }
  }

  lemma {:induction false} LeqTotal(a: string, b: string)
    ensures Leq(a, b) || Leq(b, a)
  {
    if a != [] && b != [] && a[0] == b[0] {
      LeqTotal(a[1..], b[1..]);
    }
  }

  lemma {:induction false} LeqAntisymmetric(a: string, b: string)
    requires Leq(a, b) && Leq(b, a)
    ensures a == b
  {
    if a != [] && b != [] {
      LeqAntisymmetric(a[1..], b[1..]);
      assert a == [a[0]] + a[1..] && b == [b[0]] + b[1..];
    }
  }

  lemma {:induction false} LeqTransitive(a: string, b: string, c: string)
    requires Leq(a, b) && Leq(b, c)
    ensures Leq(a, c)
  {
    if a != [] && a[0] == b[0] && b[0] == c[0] {
      LeqTransitive(a[1..], b[1..], c[1..]);
    }
  }

  lemma LeqOrders()
    ensures Orders(Leq)
  {
    forall a, b
      ensures Leq(a, b) || Leq(b, a)
    {
      LeqTotal(a, b);
    }
    forall a, b, c | Leq(a, b) && Leq(b, c)
      ensures Leq(a, c)
    {
      LeqTransitive(a, b, c);
    }
  }

  function Sorted(s: seq<string>): seq<string> {
    Sort(s, Leq)
  }

  ghost predicate IsSorted(s: seq<string>) {
    Ascending(s, Leq)
  }

  lemma SortedSorts(s: seq<string>)
    ensures IsSorted(Sorted(s)) && multiset(Sorted(s)) == multiset(s)
  {
    LeqOrders();
    SortAscends(s, Leq);
    SortAdds(s, Leq);
  }

  lemma BelowLast(s: seq<string>, y: string)
    requires IsSorted(s) && y in s
    ensures Leq(y, s[|s| - 1])
  {
    LeqTotal(y, y);
  }

  lemma SameLast(a: seq<string>, b: seq<string>)
    requires IsSorted(a) && IsSorted(b) && multiset(a) == multiset(b) && a != []
    ensures b != [] && a[|a| - 1] == b[|b| - 1]
  {
    var x := a[|a| - 1];
    assert x in multiset(b);
    BelowLast(b, x);
    var y := b[|b| - 1];
    assert y in multiset(a);
    BelowLast(a, y);
    LeqAntisymmetric(x, y);
  }

  lemma SameInit<T>(a: seq<T>, b: seq<T>)
    requires a != [] && b != [] && multiset(a) == multiset(b) && a[|a| - 1] == b[|b| - 1]
    ensures multiset(a[..|a| - 1]) == multiset(b[..|b| - 1])
  {
    LastOut(a);
    LastOut(b);
    var p, q, x := multiset(a[..|a| - 1]), multiset(b[..|b| - 1]), a[|a| - 1];
    assert p == (p + multiset{x}) - multiset{x};
    assert q == (q + multiset{x}) - multiset{x};
  }

  /** A sorted list is determined by what is in it. */
  lemma {:induction false} SortedUnique(a: seq<string>, b: seq<string>)
    requires IsSorted(a) && IsSorted(b) && multiset(a) == multiset(b)
    ensures a == b
    decreases |a|
  {
    if a == [] {
      assert |multiset(b)| == |b|;
    } else {
      SameLast(a, b);
      SameInit(a, b);
      SortedUnique(a[..|a| - 1], b[..|b| - 1]);
    }
  }

  /** Two lists sort to the same just if the same is in them. */
  lemma SortedSameIff(a: seq<string>, b: seq<string>)
    ensures Sorted(a) == Sorted(b) <==> multiset(a) == multiset(b)
  {
    SortedSorts(a);
    SortedSorts(b);
    if multiset(a) == multiset(b) {
      SortedUnique(Sorted(a), Sorted(b));
    }
  }
}
