/** Stable sorting by any order, ties allowed. */
module Sorting {

  /** leq compares any two, and is transitive. */
  ghost predicate Orders<T(!new)>(leq: (T, T) -> bool) {
    && (forall a, b :: leq(a, b) || leq(b, a))
    && (forall a, b, c :: leq(a, b) && leq(b, c) ==> leq(a, c))
  }

  ghost predicate Ascending<T>(s: seq<T>, leq: (T, T) -> bool) {
    forall i, j :: 0 <= i < j < |s| ==> leq(s[i], s[j])
  }

  /** Put x where it belongs in a sorted list, behind what is equal. */
  function Insert<T>(s: seq<T>, x: T, leq: (T, T) -> bool): seq<T> {
    if s == [] then [x]
    else if leq(s[|s| - 1], x) then s + [x]
    else Insert(s[..|s| - 1], x, leq) + [s[|s| - 1]]
  }

  function Sort<T>(s: seq<T>, leq: (T, T) -> bool): seq<T> {
    if s == [] then [] else Insert(Sort(s[..|s| - 1], leq), s[|s| - 1], leq)
  }

  lemma LastOut<T>(s: seq<T>)
    requires s != []
    ensures multiset(s[..|s| - 1]) + multiset{s[|s| - 1]} == multiset(s)
  {
    assert s == s[..|s| - 1] + [s[|s| - 1]];
  }

  lemma {:induction false} InsertAdds<T>(s: seq<T>, x: T, leq: (T, T) -> bool)
    ensures multiset(Insert(s, x, leq)) == multiset(s) + multiset{x}
  {
    if s != [] && !leq(s[|s| - 1], x) {
      InsertAdds(s[..|s| - 1], x, leq);
      LastOut(s);
    }
  }

  /** Sorting keeps everything, repeated members too. */
  lemma {:induction false} SortAdds<T>(s: seq<T>, leq: (T, T) -> bool)
    ensures multiset(Sort(s, leq)) == multiset(s)
  {
    if s != [] {
      SortAdds(s[..|s| - 1], leq);
      InsertAdds(Sort(s[..|s| - 1], leq), s[|s| - 1], leq);
      LastOut(s);
    }
  }

  lemma AscendingSnoc<T>(s: seq<T>, x: T, leq: (T, T) -> bool)
    requires Ascending(s, leq) && forall y :: y in s ==> leq(y, x)
    ensures Ascending(s + [x], leq)
  {
  }

  lemma {:induction false} InsertAscends<T(!new)>(s: seq<T>, x: T, leq: (T, T) -> bool)
    requires Orders(leq) && Ascending(s, leq)
    ensures Ascending(Insert(s, x, leq), leq)
  {
    if s != [] {
      var init, last := s[..|s| - 1], s[|s| - 1];
      forall y | y in s
        ensures leq(y, last)
      {
        assert leq(last, last);
      }
      if leq(last, x) {
        AscendingSnoc(s, x, leq);
      } else {
        InsertAscends(init, x, leq);
        InsertAdds(init, x, leq);
        forall y | y in Insert(init, x, leq)
          ensures leq(y, last)
        {
          assert y in multiset(Insert(init, x, leq));
          assert y == x || y in init;
        }
        AscendingSnoc(Insert(init, x, leq), last, leq);
      }
    }
  }

  lemma {:induction false} SortAscends<T(!new)>(s: seq<T>, leq: (T, T) -> bool)
    requires Orders(leq)
    ensures Ascending(Sort(s, leq), leq)
  {
    if s != [] {
      SortAscends(s[..|s| - 1], leq);
      InsertAscends(Sort(s[..|s| - 1], leq), s[|s| - 1], leq);
    }
  }

  /** The members of s that leq ties with x, in their order. */
  function Ties<T>(s: seq<T>, x: T, leq: (T, T) -> bool): seq<T> {
    if s == [] then []
    else Ties(s[..|s| - 1], x, leq) + if leq(s[|s| - 1], x) && leq(x, s[|s| - 1]) then [s[|s| - 1]] else []
  }

  lemma TiesSnoc<T>(s: seq<T>, y: T, x: T, leq: (T, T) -> bool)
    ensures Ties(s + [y], x, leq) == Ties(s, x, leq) + if leq(y, x) && leq(x, y) then [y] else []
  {
    assert (s + [y])[..|s|] == s;
  }

  lemma {:induction false} InsertStable<T(!new)>(s: seq<T>, y: T, x: T, leq: (T, T) -> bool)
    requires Orders(leq)
    ensures Ties(Insert(s, y, leq), x, leq) == Ties(s + [y], x, leq)
  {
    if s != [] && !leq(s[|s| - 1], y) {
      var init, last := s[..|s| - 1], s[|s| - 1];
      InsertStable(init, y, x, leq);
      TiesSnoc(Insert(init, y, leq), last, x, leq);
      TiesSnoc(init, y, x, leq);
      TiesSnoc(s, y, x, leq);
    }
  }

  /** Members that tie keep their order. */
  lemma {:induction false} SortStable<T(!new)>(s: seq<T>, x: T, leq: (T, T) -> bool)
    requires Orders(leq)
    ensures Ties(Sort(s, leq), x, leq) == Ties(s, x, leq)
  {
    if s != [] {
      var init, last := s[..|s| - 1], s[|s| - 1];
      SortStable(init, x, leq);
      InsertStable(Sort(init, leq), last, x, leq);
      TiesSnoc(Sort(init, leq), last, x, leq);
    }
  }
}

/** Where the members of a list are in its permutations. */
module Permutations {

  lemma IndexIn<T>(a: seq<T>, b: seq<T>, i: nat) returns (k: nat)
    requires multiset(a) == multiset(b) && i < |a|
    ensures k < |b| && b[k] == a[i]
  {
    assert a[i] in multiset(b);
    k :| 0 <= k < |b| && b[k] == a[i];
  }

  lemma TwiceInMultiset<T>(s: seq<T>, i: nat, j: nat)
    requires i < j < |s| && s[i] == s[j]
    ensures multiset(s)[s[i]] >= 2
  {
    assert s == s[..i] + [s[i]] + s[i + 1..j] + [s[j]] + s[j + 1..];
    assert multiset(s) == multiset(s[..i]) + multiset{s[i]} + multiset(s[i + 1..j]) + multiset{s[j]}
           + multiset(s[j + 1..]);
  }

  lemma {:induction false} FindTwice<T>(s: seq<T>, x: T) returns (p: nat, q: nat)
    requires multiset(s)[x] >= 2
    ensures p < q < |s| && s[p] == s[q] == x
    decreases |s|
  {
    assert s != [];
    var init, last := s[..|s| - 1], s[|s| - 1];
    assert s == init + [last];
    assert multiset(s) == multiset(init) + multiset{last};
    if last == x {
      assert x in multiset(init);
      p :| 0 <= p < |init| && init[p] == x;
      q := |s| - 1;
    } else {
      p, q := FindTwice(init, x);
    }
  }

  /** Two places of a list, as two places of its permutation. */
  lemma PairIn<T>(a: seq<T>, b: seq<T>, i: nat, j: nat) returns (p: nat, q: nat)
    requires multiset(a) == multiset(b) && i < j < |a|
    ensures p < |b| && q < |b| && p != q && b[p] == a[i] && b[q] == a[j]
  {
    if a[i] == a[j] {
      TwiceInMultiset(a, i, j);
      p, q := FindTwice(b, a[i]);
    } else {
      p := IndexIn(a, b, i);
      q := IndexIn(a, b, j);
    }
  }

  lemma SameLength<T>(a: seq<T>, b: seq<T>)
    requires multiset(a) == multiset(b)
    ensures |a| == |b|
  {
    assert |a| == |multiset(a)| == |multiset(b)| == |b|;
  }
}
