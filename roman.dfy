/**
 * toRoman and fromRoman (90file.js:86-115). `toRoman` spells a number greedily
 * from a table of thirteen symbols; `fromRoman` adds up letter values, subtracting
 * a letter that is smaller than its successor. A character outside `IVXLCDM` has
 * no value (`undefined`), which turns the sum into `NaN`, modelled as `None`.
 */
module Roman {
  import opened Common

  /** A position in the table of `toRoman`. */
  type Pos = k: nat | k < 13

  /** The table of `toRoman`, in its order: values and their symbols. */
  const Values: seq<int> := [1000, 900, 500, 400, 100, 90, 50, 40, 10, 9, 5, 4, 1]
  const Symbols: seq<string> := ["M", "CM", "D", "CD", "C", "XC", "L", "XL", "X", "IX", "V", "IV", "I"]

  /** The table positions the greedy loop of `toRoman` emits, from position `k` on, for the amount `n` left. */
  function Greedy(n: int, k: nat): (r: seq<Pos>)
    requires k <= 13
    ensures forall i :: 0 <= i < |r| ==> k <= r[i]
    decreases 13 - k, n
  {
    if k == 13 then []
    else if n >= Values[k] then [k as Pos] + Greedy(n - Values[k], k)
    else Greedy(n, k + 1)
  }

  /** The string made of the symbols at the given table positions. */
  function Spell(idx: seq<Pos>): string {
    if idx == [] then "" else Symbols[idx[0]] + Spell(idx[1..])
  }

  /** The sum of the table values at the given positions. */
  function Total(idx: seq<Pos>): int {
    if idx == [] then 0 else Values[idx[0]] + Total(idx[1..])
  }

  /** Positions in non-decreasing order: symbols in non-increasing value. */
  predicate Ascending(idx: seq<Pos>) {
    forall i, j :: 0 <= i < j < |idx| ==> idx[i] <= idx[j]
  }

  /** `toRoman` emits table symbols in non-increasing order of value, and nothing for a number below 1. */
  lemma {:induction false} GreedyAscending(n: int, k: nat)
    requires k <= 13
    ensures Ascending(Greedy(n, k))
    ensures n <= 0 ==> Greedy(n, k) == []
    decreases 13 - k, n
  {
    if k < 13 {
      if n >= Values[k] {
        GreedyAscending(n - Values[k], k);
      } else {
        GreedyAscending(n, k + 1);
      }
    }
  }

  /** The symbols `toRoman` emits for a natural number add up to that number. */
  lemma {:induction false} GreedyTotal(n: int, k: nat)
    requires k <= 12 && n >= 0
    ensures Total(Greedy(n, k)) == n
    decreases 13 - k, n
  {
    if n >= Values[k] {
      GreedyTotal(n - Values[k], k);
    } else if k < 12 {
      GreedyTotal(n, k + 1);
    }
  }

  /** `toRoman(num)`: the greedy loop over the table. */
  method ToRoman(num: int) returns (res: string)
    ensures res == Spell(Greedy(num, 0))
  {
    res := "";
    var n := num;
    for k := 0 to 13
      invariant res + Spell(Greedy(n, k)) == Spell(Greedy(num, 0))
    {
      while n >= Values[k]
        invariant res + Spell(Greedy(n, k)) == Spell(Greedy(num, 0))
        decreases n
      {
        EmitOne(res, n, k);
        res := res + Symbols[k];
        n := n - Values[k];
      }
      assert Greedy(n, k) == Greedy(n, k + 1);
    }
    assert Greedy(n, 13) == [];
  }

  /** Emitting the symbol at `k` moves it from the greedy remainder to the output. */
  lemma EmitOne(res: string, n: int, k: Pos)
    requires n >= Values[k]
    ensures res + Spell(Greedy(n, k)) == (res + Symbols[k]) + Spell(Greedy(n - Values[k], k))
  {
    var rest := Greedy(n - Values[k], k);
    assert Greedy(n, k) == [k] + rest;
    assert Spell([k] + rest) == Symbols[k] + Spell(rest);
  }

  /** The letter values of `fromRoman`; 0 stands for a character with no value (`undefined`). */
  function LetterValue(c: char): int {
    match c
    case 'I' => 1
    case 'V' => 5
    case 'X' => 10
    case 'L' => 50
    case 'C' => 100
    case 'D' => 500
    case 'M' => 1000
    case _ => 0
  }

  predicate IsNumeral(c: char) {
    LetterValue(c) > 0
  }

  /** What character `i` adds to the sum: minus its value when the next letter is worth more. */
  function Term(s: string, i: nat): int
    requires i < |s|
  {
    var cur := LetterValue(s[i]);
    var next := if i + 1 < |s| then LetterValue(s[i + 1]) else 0;
    if cur < next then -cur else cur
  }

  function Terms(s: string): (r: seq<int>)
    ensures |r| == |s|
  {
    seq(|s|, i requires 0 <= i < |s| => Term(s, i))
  }

  function Sum(xs: seq<int>): int {
    if xs == [] then 0 else Sum(xs[..|xs| - 1]) + xs[|xs| - 1]
  }

  /** What `fromRoman(s)` returns: the sum of the terms, or `NaN` (`None`) if some character has no value. */
  function Decode(s: string): Option<int> {
    if forall i :: 0 <= i < |s| ==> IsNumeral(s[i]) then Some(Sum(Terms(s))) else None
  }

  /** `fromRoman(s)`: one pass over the string, looking one letter ahead. */
  method FromRoman(s: string) returns (r: Option<int>)
    ensures r == Decode(s)
  {
    var sum := 0;
    var nan := false;
    for i := 0 to |s|
      invariant nan <==> exists j :: 0 <= j < i && !IsNumeral(s[j])
      invariant !nan ==> sum == Sum(Terms(s)[..i])
    {
      var cur := LetterValue(s[i]);
      var next := if i + 1 < |s| then LetterValue(s[i + 1]) else 0;
      assert Terms(s)[..i + 1] == Terms(s)[..i] + [Term(s, i)];
      if cur == 0 {
        nan := true;
      } else if cur < next {
        sum := sum - cur;
      } else {
        sum := sum + cur;
      }
    }
    assert Terms(s)[..|s|] == Terms(s);
    r := if nan then None else Some(sum);
  }

  lemma {:induction false} SumAppend(xs: seq<int>, ys: seq<int>)
    ensures Sum(xs + ys) == Sum(xs) + Sum(ys)
    decreases |ys|
  {
    if ys == [] {
      assert xs + ys == xs;
    } else {
      var init := ys[..|ys| - 1];
      assert (xs + ys)[..|xs + ys| - 1] == xs + init;
      SumAppend(xs, init);
    }
  }

  /**
   * Decoding is additive across a boundary where the letter before is worth at
   * least the letter after: then no term on either side changes.
   */
  lemma TermsAppend(a: string, b: string)
    requires a != [] && b != [] ==> LetterValue(a[|a| - 1]) >= LetterValue(b[0])
    ensures Terms(a + b) == Terms(a) + Terms(b)
  {
    forall i | 0 <= i < |a + b|
      ensures Terms(a + b)[i] == (Terms(a) + Terms(b))[i]
    {
      if i < |a| {
        assert Term(a + b, i) == Term(a, i);
      } else {
        assert Term(a + b, i) == Term(b, i - |a|);
      }
    }
  }

  function FirstValue(k: Pos): int {
    LetterValue(Symbols[k][0])
  }

  function LastValue(k: Pos): int {
    LetterValue(Symbols[k][|Symbols[k]| - 1])
  }

  /** Each symbol of the table is made of numerals and decodes to its own value. */
  lemma SymbolDecodes(k: Pos)
    ensures forall c <- Symbols[k] :: IsNumeral(c)
    ensures Sum(Terms(Symbols[k])) == Values[k]
  {
    var t := Terms(Symbols[k]);
    if |Symbols[k]| == 1 {
      assert t == [Values[k]];
      assert Sum(t) == Sum([]) + Values[k];
    } else {
      assert |t| == 2 && Sum(t) == Sum(t[..1]) + t[1] && t[..1] == [t[0]];
      assert Sum([t[0]]) == Sum([]) + t[0];
    }
  }

  /** A symbol's last letter is worth at least the first letter of any symbol at or after it in the table. */
  lemma TableOrder(i: Pos, j: Pos)
    requires i <= j
    ensures LastValue(i) >= FirstValue(j)
  {
  }

  /**
   * Symbols spelled in table order decode to the sum of their values: no letter is
   * subtracted across a symbol boundary.
   */
  lemma {:induction false} SpellDecodes(idx: seq<Pos>)
    requires Ascending(idx)
    ensures forall i :: 0 <= i < |Spell(idx)| ==> IsNumeral(Spell(idx)[i])
    ensures Sum(Terms(Spell(idx))) == Total(idx)
    ensures idx != [] ==> Spell(idx) != [] && LetterValue(Spell(idx)[0]) == FirstValue(idx[0])
  {
    if idx != [] {
      var head, tail := Symbols[idx[0]], Spell(idx[1..]);
      SpellDecodes(idx[1..]);
      SymbolDecodes(idx[0]);
      if idx[1..] != [] {
        TableOrder(idx[0], idx[1]);
      }
      TermsAppend(head, tail);
      SumAppend(Terms(head), Terms(tail));
      assert Spell(idx) == head + tail;
      forall i | 0 <= i < |head + tail| ensures IsNumeral((head + tail)[i]) {
        if i < |head| {
          assert (head + tail)[i] in head;
        }
      }
    }
  }

  /** Round trip: `fromRoman(toRoman(n)) == n` for every natural number `n`. */
  lemma RomanRoundTrip(n: nat)
    ensures Decode(Spell(Greedy(n, 0))) == Some(n)
  {
    GreedyAscending(n, 0);
    GreedyTotal(n, 0);
    SpellDecodes(Greedy(n, 0));
  }
}
