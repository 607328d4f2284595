/** Small vocabulary shared by the models of the utilities in 90file.js. */
module Common {

  /** A value that may be absent: JavaScript's `undefined` or `null` where the source returns one. */
  datatype Option<T> = None | Some(value: T)

  /** What calling a caller-supplied JavaScript function produced: a returned value or a thrown one. */
  datatype Attempt<T, E> = Returned(value: T) | Threw(error: E)

  /** No element occurs twice. */
  predicate Distinct<T(==)>(s: seq<T>) {
    forall i, j :: 0 <= i < j < |s| ==> s[i] != s[j]
  }

  /** Strictly increasing indices into a sequence of length `n`. */
  predicate IncreasingIndices(idx: seq<int>, n: int) {
    (forall i :: 0 <= i < |idx| ==> 0 <= idx[i] < n) &&
    (forall i, j :: 0 <= i < j < |idx| ==> idx[i] < idx[j])
  }

  /** Removal of `k` from an insertion-ordered `Map` or `Set`, seen as its key order: the others keep their order. */
  function Without<K(==)>(s: seq<K>, k: K): (r: seq<K>)
    ensures forall x <- r :: x in s && x != k
    ensures forall x <- s :: x != k ==> x in r
    ensures Distinct(s) ==> Distinct(r)
    ensures Distinct(s) && k in s ==> |r| == |s| - 1
    ensures k !in s ==> r == s
  {
    if s == [] then []
    else if s[0] == k then Without(s[1..], k)
    else
      var rest := Without(s[1..], k);
      assert Distinct(s) ==> s[0] !in s[1..];
      [s[0]] + rest
  }

  /**
   * JavaScript's `a % b` on integers: the remainder of division truncated toward
   * zero, which takes the sign of `a` (Dafny's own `%` never goes negative).
   */
  function JsRem(a: int, b: int): (r: int)
    requires b > 0
    ensures a >= 0 ==> r == a % b
    ensures a < 0 ==> -b < r <= 0
  {
    if a >= 0 then a % b else -((-a) % b)
  }

  /** Euclidean division is the only way to write `s` as a multiple of `m` plus a remainder below `m`. */
  lemma DivModUnique(s: int, a: int, b: int, m: int)
    requires m > 0 && 0 <= b < m && s == a * m + b
    ensures s % m == b && s / m == a
  {
    var q, r := s / m, s % m;
    assert (q - a) * m == b - r;
    MulAwayFromZero(q - a, m);
  }

  lemma MulAwayFromZero(d: int, m: int)
    requires m > 0
    ensures d >= 1 ==> d * m >= m
    ensures d <= -1 ==> d * m <= -m
  {
  }

  function Max(a: int, b: int): int { if a >= b then a else b }

  function Min(a: int, b: int): int { if a <= b then a else b }

  /** Adding `u`, one of `all`, to what has been visited leaves fewer of `all` unvisited. */
  lemma Shrinks<N>(all: set<N>, before: set<N>, after: set<N>, u: N)
    requires before + {u} <= after && u !in before && u in all
    ensures |all - after| < |all - before|
  {
    var a, b := all - after, all - before;
    assert a <= b && u in b - a;
    assert b == a + (b - a) && a !! (b - a);
    assert |b - a| >= 1;
  }

  /** `s` read backwards. */
  function Reversed<T>(s: seq<T>): seq<T> {
    seq(|s|, p requires 0 <= p < |s| => s[|s| - 1 - p])
  }

  /** Reversing twice gives the sequence back. */
  lemma ReversedTwice<T>(s: seq<T>)
    ensures Reversed(Reversed(s)) == s
  {
  }

  /** The reversal of a concatenation is the concatenation of the reversals, swapped. */
  lemma ReversedConcat<T>(x: seq<T>, y: seq<T>)
    ensures Reversed(x + y) == Reversed(y) + Reversed(x)
  {
  }
}
