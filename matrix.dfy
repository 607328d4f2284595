/**
 * The matrix utilities of 90file.js: `transpose` (303-310), which builds a new
 * matrix, and `rotateMatrix90` (315-326), which rotates a square matrix a
 * quarter turn clockwise in place by transposing and then reversing each row.
 */
module Matrix {

  /** Every row is at least as long as the first, which fixes the number of columns. */
  predicate RowsCover(m: seq<seq<int>>) {
    forall i :: 0 <= i < |m| ==> |m[i]| >= |m[0]|
  }

  /** `matrix[0]?.length || 0`. */
  function Columns(m: seq<seq<int>>): nat {
    if m == [] then 0 else |m[0]|
  }

  /** All rows have the same length. */
  predicate Rectangular(m: seq<seq<int>>) {
    forall i :: 0 <= i < |m| ==> |m[i]| == |m[0]|
  }

  /** The transpose: column `j` of `m` becomes row `j`. */
  function Transposed(m: seq<seq<int>>): (t: seq<seq<int>>)
    requires RowsCover(m)
  {
    seq(Columns(m), j requires 0 <= j < Columns(m) => seq(|m|, i requires 0 <= i < |m| => m[i][j]))
  }

  /** Transposing twice gives a rectangular matrix back, unless its rows are empty (then there are no columns to keep the rows). */
  lemma TransposeTwice(m: seq<seq<int>>)
    requires Rectangular(m) && (m != [] ==> m[0] != [])
    ensures RowsCover(Transposed(m)) && Transposed(Transposed(m)) == m
  {
    var t := Transposed(m);
    if m != [] {
      assert |t| == |m[0]| && |t[0]| == |m|;
      var tt := Transposed(t);
      assert |tt| == |m|;
      forall i | 0 <= i < |m| ensures tt[i] == m[i] {
        assert |tt[i]| == |m[i]|;
      }
    }
  }

  /**
   * `transpose(matrix)`: `out[j][i] = matrix[i][j]` for every row `i` and
   * every column `j` of the first row. Rows shorter than the first would
   * read `undefined`; they are excluded.
   */
  method Transpose(m: seq<seq<int>>) returns (out: seq<seq<int>>)
    requires RowsCover(m)
    ensures |out| == Columns(m) && forall j :: 0 <= j < |out| ==> |out[j]| == |m|
    ensures forall i, j :: 0 <= i < |m| && 0 <= j < Columns(m) ==> out[j][i] == m[i][j]
    ensures out == Transposed(m)
  {
    var rows, cols := |m|, Columns(m);
    out := seq(cols, _ => seq(rows, _ => 0));
    for i := 0 to rows
      invariant |out| == cols && forall j :: 0 <= j < cols ==> |out[j]| == rows
      invariant forall r, j :: 0 <= r < i && 0 <= j < cols ==> out[j][r] == m[r][j]
    {
      for j := 0 to cols
        invariant |out| == cols && forall j' :: 0 <= j' < cols ==> |out[j']| == rows
        invariant forall r, j' :: 0 <= r < i && 0 <= j' < cols ==> out[j'][r] == m[r][j']
        invariant forall j' :: 0 <= j' < j ==> out[j'][i] == m[i][j']
      {
        out := out[j := out[j][i := m[i][j]]];
      }
    }
    forall j | 0 <= j < cols ensures out[j] == Transposed(m)[j] {
    }
  }

  /** The rows of a two-dimensional array, as a value. */
  function Grid(a: array2<int>): seq<seq<int>>
    reads a
  {
    seq(a.Length0, i requires 0 <= i < a.Length0 reads a =>
      seq(a.Length1, j requires 0 <= j < a.Length1 reads a => a[i, j]))
  }

  /** A square matrix turned a quarter clockwise: row `i` is column `i` read from the bottom up. */
  function Rotated(g: seq<seq<int>>): seq<seq<int>>
    requires forall i :: 0 <= i < |g| ==> |g[i]| == |g|
  {
    var n := |g|;
    seq(n, i requires 0 <= i < n => seq(n, j requires 0 <= j < n => g[n - 1 - j][i]))
  }

  /** Four quarter turns bring a square matrix back. */
  lemma RotateFourTimes(g: seq<seq<int>>)
    requires forall i :: 0 <= i < |g| ==> |g[i]| == |g|
    ensures Rotated(Rotated(Rotated(Rotated(g)))) == g
  {
    var n := |g|;
    var g1 := Rotated(g);
    var g2 := Rotated(g1);
    var g3 := Rotated(g2);
    var g4 := Rotated(g3);
    forall i, j | 0 <= i < n && 0 <= j < n ensures g2[i][j] == g[n - 1 - i][n - 1 - j] {
    }
    forall i | 0 <= i < n ensures g4[i] == g[i] {
      forall j | 0 <= j < n ensures g4[i][j] == g[i][j] {
        assert g4[i][j] == g2[n - 1 - i][n - 1 - j];
      }
    }
  }

  /** The first half of `rotateMatrix90`: swap `mat[i][j]` and `mat[j][i]` above the diagonal. */
  method TransposeInPlace(a: array2<int>)
    requires a.Length0 == a.Length1
    modifies a
    ensures forall r, c :: 0 <= r < a.Length0 && 0 <= c < a.Length1 ==> a[r, c] == old(a[c, r])
  {
    var n := a.Length0;
    for i := 0 to n
      invariant forall r, c :: 0 <= r < n && 0 <= c < n ==>
        a[r, c] == if r < i || c < i then old(a[c, r]) else old(a[r, c])
    {
      for j := i + 1 to n
        invariant forall r, c :: 0 <= r < n && 0 <= c < n ==>
          a[r, c] == if r < i || c < i || (r == i && i < c < j) || (c == i && i < r < j) then old(a[c, r]) else old(a[r, c])
      {
        a[i, j], a[j, i] := a[j, i], a[i, j];
      }
    }
  }

  /** `mat[i].reverse()`: row `i` in reverse order, the other rows untouched. */
  method ReverseRow(a: array2<int>, i: int)
    requires 0 <= i < a.Length0
    modifies a
    ensures forall c :: 0 <= c < a.Length1 ==> a[i, c] == old(a[i, a.Length1 - 1 - c])
    ensures forall r, c :: 0 <= r < a.Length0 && r != i && 0 <= c < a.Length1 ==> a[r, c] == old(a[r, c])
  {
    var n := a.Length1;
    var lo, hi := 0, n - 1;
    while lo < hi
      invariant 0 <= lo && hi <= n - 1 && lo + hi == n - 1 && lo <= hi + 1
      invariant forall c :: 0 <= c < n && (c < lo || c > hi) ==> a[i, c] == old(a[i, n - 1 - c])
      invariant forall c :: lo <= c <= hi ==> a[i, c] == old(a[i, c])
      invariant forall r, c :: 0 <= r < a.Length0 && r != i && 0 <= c < n ==> a[r, c] == old(a[r, c])
    {
      a[i, lo], a[i, hi] := a[i, hi], a[i, lo];
      lo, hi := lo + 1, hi - 1;
    }
  }

  /** `rotateMatrix90(mat)` on a square matrix: the new cell `(i, j)` holds the old cell `(n - 1 - j, i)`. */
  method RotateMatrix90(a: array2<int>)
    requires a.Length0 == a.Length1
    modifies a
    ensures forall i, j :: 0 <= i < a.Length0 && 0 <= j < a.Length0 ==> a[i, j] == old(a[a.Length0 - 1 - j, i])
    ensures Grid(a) == Rotated(old(Grid(a)))
  {
    var n := a.Length0;
    TransposeInPlace(a);
    for i := 0 to n
      invariant forall r, c :: 0 <= r < n && 0 <= c < n ==> a[r, c] == if r < i then old(a[n - 1 - c, r]) else old(a[c, r])
    {
      label before:
      ReverseRow(a, i);
      forall c | 0 <= c < n ensures a[i, c] == old(a[n - 1 - c, i]) {
        assert a[i, c] == old@before(a[i, n - 1 - c]);
      }
    }
    ghost var g := old(Grid(a));
    forall i | 0 <= i < n ensures Grid(a)[i] == Rotated(g)[i] {
    }
  }
}
