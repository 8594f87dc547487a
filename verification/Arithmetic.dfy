/** Facts about products, quotients and remainders. */
module Arithmetic {
  lemma AtLeastOnce(a: int, d: int)
    requires 0 < a
    ensures d > 0 ==> a <= a * d
    ensures d < 0 ==> a * d <= -a
  {
  }

  lemma Product(a: int, b: int, c: int)
    requires a <= b && 0 <= c
    ensures a * c <= b * c
  {
  }

  /** Quotient and remainder are unique. */
  lemma DivModUnique(n: int, m: int, q: int, r: int)
    requires 0 < m && n == m * q + r && 0 <= r < m
    ensures n / m == q && n % m == r
  {
    var d := n / m - q;
    assert m * d == r - n % m;
    AtLeastOnce(m, d);
  }
}

/** Left folds over the first elements of a sequence. */
module Folds {
  function Fold<S, B>(f: (S, B) -> S, bs: seq<B>, n: nat, s: S): S
    requires n <= |bs|
    decreases n
  {
    if n == 0 then s else f(Fold(f, bs, n - 1, s), bs[n - 1])
  }

  lemma {:induction false} FoldPrefix<S, B>(f: (S, B) -> S, a: seq<B>, b: seq<B>, n: nat, s: S)
    requires n <= |a|
    ensures Fold(f, a + b, n, s) == Fold(f, a, n, s)
    decreases n
  {
    if n > 0 {
      FoldPrefix(f, a, b, n - 1, s);
    }
  }

  /** Folding a concatenation is folding its parts one after the other. */
  lemma {:induction false} FoldComposes<S, B>(f: (S, B) -> S, a: seq<B>, b: seq<B>, n: nat, s: S)
    requires n <= |b|
    ensures Fold(f, a + b, |a| + n, s) == Fold(f, b, n, Fold(f, a, |a|, s))
    decreases n
  {
    if n > 0 {
      FoldComposes(f, a, b, n - 1, s);
      assert (a + b)[|a| + n - 1] == b[n - 1];
    } else {
      FoldPrefix(f, a, b, |a|, s);
    }
  }

  lemma {:induction false} FoldSame<S(!new), B(!new)>(f: (S, B) -> S, g: (S, B) -> S, bs: seq<B>, n: nat, s: S)
    requires n <= |bs| && forall s, b :: f(s, b) == g(s, b)
    ensures Fold(f, bs, n, s) == Fold(g, bs, n, s)
    decreases n
  {
    if n > 0 {
      FoldSame(f, g, bs, n - 1, s);
    }
  }

  /** The first n parts, one after the other. */
  function Flat<T>(parts: seq<seq<T>>, n: nat): seq<T>
    requires n <= |parts|
    decreases n
  {
    if n == 0 then [] else Flat(parts, n - 1) + parts[n - 1]
  }
}
