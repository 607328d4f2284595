/** `sumNestedArray(arr)` (90file.js:639-646): the sum of all numbers in arbitrarily nested arrays. */
module NestedSum {

  /** An entry of a nested array: a number, or an array of entries. */
  datatype Entry = Num(n: int) | Arr(items: seq<Entry>)

  /** `sumNestedArray(arr)`: nested arrays add their own sum, numbers add themselves. */
  function SumNested(arr: seq<Entry>): int
    decreases arr
  {
    if arr == [] then 0
    else
      var x := arr[|arr| - 1];
      SumNested(arr[..|arr| - 1]) + (if x.Arr? then SumNested(x.items) else x.n)
  }

  /** The numbers of a nested array in reading order, with the nesting removed. */
  function Flatten(arr: seq<Entry>): seq<int>
    decreases arr
  {
    if arr == [] then []
    else
      var x := arr[|arr| - 1];
      Flatten(arr[..|arr| - 1]) + (if x.Arr? then Flatten(x.items) else [x.n])
  }

  function Sum(s: seq<int>): int {
    if s == [] then 0 else Sum(s[..|s| - 1]) + s[|s| - 1]
  }

  lemma {:induction false} SumAppend(s: seq<int>, t: seq<int>)
    ensures Sum(s + t) == Sum(s) + Sum(t)
    decreases |t|
  {
    if t != [] {
      assert (s + t)[..|s + t| - 1] == s + t[..|t| - 1];
      SumAppend(s, t[..|t| - 1]);
    } else {
      assert s + t == s;
    }
  }

  /** The nested sum is the plain sum of the flattened numbers, so nesting never changes the total. */
  lemma {:induction false} SumNestedFlatten(arr: seq<Entry>)
    ensures SumNested(arr) == Sum(Flatten(arr))
    decreases arr
  {
    if arr != [] {
      var x := arr[|arr| - 1];
      SumNestedFlatten(arr[..|arr| - 1]);
      if x.Arr? {
        SumNestedFlatten(x.items);
        SumAppend(Flatten(arr[..|arr| - 1]), Flatten(x.items));
      } else {
        SumAppend(Flatten(arr[..|arr| - 1]), [x.n]);
      }
    }
  }

  /** Wrapping entries in an extra array, or splitting an array in two, keeps the sum. */
  lemma {:induction false} SumNestedAppend(a: seq<Entry>, b: seq<Entry>)
    ensures SumNested(a + b) == SumNested(a) + SumNested(b)
    ensures SumNested([Arr(a)]) == SumNested(a)
    decreases |b|
  {
    assert [Arr(a)][..0] == [];
    if b != [] {
      assert (a + b)[..|a + b| - 1] == a + b[..|b| - 1];
      SumNestedAppend(a, b[..|b| - 1]);
    } else {
      assert a + b == a;
    }
  }
}
