/**
 * `coinChange(coins, amount)` (90file.js:1239-1248): the fewest coins, each
 * value usable any number of times, that add up to `amount`, or -1. The table
 * `dp` holds `Infinity` for amounts not reached yet; here that sentinel is `Inf`.
 */
module CoinChange {

  /** A table entry: a count of coins, or `Infinity`. */
  datatype Ext = Fin(n: nat) | Inf

  /** `Math.min` on table entries. */
  function MinE(a: Ext, b: Ext): Ext {
    match (a, b)
    case (Inf, _) => b
    case (_, Inf) => a
    case (Fin(x), Fin(y)) => if x <= y then a else b
  }

  /** `dp[a - c] + 1`: `Infinity + 1` stays `Infinity`. */
  function Plus1(a: Ext): Ext {
    if a.Inf? then Inf else Fin(a.n + 1)
  }

  /** Entry `a` is at most `n` coins. */
  predicate AtMost(a: Ext, n: nat) {
    a.Fin? && a.n <= n
  }

  function Sum(w: seq<int>): int {
    if w == [] then 0 else Sum(w[..|w| - 1]) + w[|w| - 1]
  }

  /** Every coin of `w` is one of the values in `cs`. */
  predicate MadeOf(w: seq<int>, cs: seq<int>) {
    forall i :: 0 <= i < |w| ==> w[i] in cs
  }

  /**
   * The fewest coins with values among `cs` adding up to `x`: either the last
   * value is not used, or it is used once more on top of the best for `x - c`.
   * A value of 0 never helps, as `dp[a] + 1` never beats `dp[a]`.
   */
  function Best(cs: seq<int>, x: int): Ext
    requires x >= 0
    decreases |cs|, x
  {
    if cs == [] then (if x == 0 then Fin(0) else Inf)
    else
      var c := cs[|cs| - 1];
      MinE(Best(cs[..|cs| - 1], x), if 0 < c <= x then Plus1(Best(cs, x - c)) else Inf)
  }

  /** Everything `Best` finds is a real way to pay `x`. */
  lemma {:induction false} BestSound(cs: seq<int>, x: int)
    requires x >= 0 && Best(cs, x).Fin?
    ensures exists w :: MadeOf(w, cs) && Sum(w) == x && |w| == Best(cs, x).n
    decreases |cs|, x
  {
    if cs == [] {
      assert MadeOf([], cs) && Sum([]) == 0;
    } else {
      var c, rest := cs[|cs| - 1], cs[..|cs| - 1];
      if Best(cs, x) == Best(rest, x) {
        BestSound(rest, x);
        var w :| MadeOf(w, rest) && Sum(w) == x && |w| == Best(rest, x).n;
        assert MadeOf(w, cs) by {
          forall i | 0 <= i < |w| ensures w[i] in cs {
            assert w[i] in rest;
          }
        }
      } else {
        assert 0 < c <= x;
        BestSound(cs, x - c);
        var w :| MadeOf(w, cs) && Sum(w) == x - c && |w| == Best(cs, x - c).n;
        var w' := w + [c];
        assert w'[..|w'| - 1] == w;
        assert MadeOf(w', cs);
      }
    }
  }

  /** No way to pay `x` with values among `cs` (none negative) uses fewer coins than `Best`. */
  lemma {:induction false} BestOptimal(cs: seq<int>, x: int, w: seq<int>)
    requires forall i :: 0 <= i < |cs| ==> cs[i] >= 0
    requires cs != [] && x >= 0 && MadeOf(w, cs) && Sum(w) == x
    ensures AtMost(Best(cs, x), |w|)
    decreases |cs|, |w|
  {
    var c, rest := cs[|cs| - 1], cs[..|cs| - 1];
    if c in w {
      var i :| 0 <= i < |w| && w[i] == c;
      var w' := w[..i] + w[i + 1..];
      SumRemove(w, i);
      assert MadeOf(w', cs) by {
        forall j | 0 <= j < |w'| ensures w'[j] in cs {
          assert w'[j] == if j < i then w[j] else w[j + 1];
        }
      }
      if c == 0 {
        BestOptimal(cs, x, w');
      } else {
        assert Sum(w') == x - c && x - c >= 0 by {
          NonNegativeSum(w', cs);
        }
        BestOptimal(cs, x - c, w');
      }
    } else {
      assert MadeOf(w, rest) by {
        forall j | 0 <= j < |w| ensures w[j] in rest {
          assert w[j] in cs && w[j] != c;
          var p :| 0 <= p < |cs| && cs[p] == w[j];
          assert p != |cs| - 1 && rest[p] == w[j];
        }
      }
      if rest == [] {
        EmptyCoins(w, x);
      } else {
        BestOptimal(rest, x, w);
      }
    }
  }

  /** With no coin values, only the empty way pays, and it pays 0. */
  lemma EmptyCoins(w: seq<int>, x: int)
    requires MadeOf(w, []) && Sum(w) == x
    ensures w == [] && x == 0
  {
    assert |w| > 0 ==> w[0] in [];
  }

  /** Coins of non-negative value add up to a non-negative amount. */
  lemma {:induction false} NonNegativeSum(w: seq<int>, cs: seq<int>)
    requires forall i :: 0 <= i < |cs| ==> cs[i] >= 0
    requires MadeOf(w, cs)
    ensures Sum(w) >= 0
  {
    if w != [] {
      var init := w[..|w| - 1];
      assert MadeOf(init, cs) by {
        forall j | 0 <= j < |init| ensures init[j] in cs {
          assert init[j] == w[j];
        }
      }
      NonNegativeSum(init, cs);
      assert w[|w| - 1] in cs;
    }
  }

  /** Taking one coin out of `w` lowers its sum by that coin's value. */
  lemma {:induction false} SumRemove(w: seq<int>, i: int)
    requires 0 <= i < |w|
    ensures Sum(w[..i] + w[i + 1..]) == Sum(w) - w[i]
  {
    var n := |w|;
    if i < n - 1 {
      var init := w[..n - 1];
      SumRemove(init, i);
      assert w[..i] + w[i + 1..] == (init[..i] + init[i + 1..]) + [w[n - 1]];
      var r := (init[..i] + init[i + 1..]) + [w[n - 1]];
      assert r[..|r| - 1] == init[..i] + init[i + 1..];
    } else {
      assert w[..i] + w[i + 1..] == w[..n - 1];
    }
  }

  /** How the table for the first `t + 1` values follows from the table for the first `t`. */
  lemma BestStep(coins: seq<int>, t: int, x: int)
    requires 0 <= t < |coins| && x >= 0
    ensures var c := coins[t];
      Best(coins[..t + 1], x) ==
        MinE(Best(coins[..t], x), if 0 < c <= x then Plus1(Best(coins[..t + 1], x - c)) else Inf)
  {
    assert coins[..t + 1][..t] == coins[..t];
  }

  /** `dp[a] = Math.min(dp[a], dp[a - c] + 1)` when `c` is 0 leaves `dp[a]` as it was. */
  lemma MinPlus1(e: Ext)
    ensures MinE(e, Plus1(e)) == e
  {
  }

  /** `coinChange(coins, amount)`, for a non-negative amount and coin values. */
  method CoinChange(coins: seq<int>, amount: int) returns (r: int)
    requires amount >= 0
    requires forall i :: 0 <= i < |coins| ==> coins[i] >= 0
    ensures r == if Best(coins, amount).Inf? then -1 else Best(coins, amount).n
  {
    var dp := new Ext[amount + 1](_ => Inf);
    dp[0] := Fin(0);
    for t := 0 to |coins|
      invariant forall x :: 0 <= x <= amount ==> dp[x] == Best(coins[..t], x)
    {
      AddCoin(coins, t, dp);
    }
    assert coins[..|coins|] == coins;
    r := if dp[amount].Inf? then -1 else dp[amount].n;
  }

  /** The inner loop for the coin `coins[t]`: each amount from `c` up may use one more such coin. */
  method AddCoin(coins: seq<int>, t: int, dp: array<Ext>)
    requires 0 <= t < |coins| && coins[t] >= 0 && dp.Length >= 1
    requires forall x :: 0 <= x < dp.Length ==> dp[x] == Best(coins[..t], x)
    modifies dp
    ensures forall x :: 0 <= x < dp.Length ==> dp[x] == Best(coins[..t + 1], x)
  {
    var amount := dp.Length - 1;
    var c := coins[t];
    forall x | 0 <= x <= amount {
      BestStep(coins, t, x);
    }
    var a := c;
    while a <= amount
      invariant c <= a && (a <= amount + 1 || a == c)
      invariant forall x :: 0 <= x <= amount ==>
        dp[x] == if x < a then Best(coins[..t + 1], x) else Best(coins[..t], x)
      decreases amount - a
    {
      if c == 0 {
        MinPlus1(dp[a]);
      }
      dp[a] := MinE(dp[a], Plus1(dp[a - c]));
      a := a + 1;
    }
  }

  /** What -1 and any other answer mean: no way to pay, or the fewest coins of some way to pay. */
  lemma CoinChangeMeaning(coins: seq<int>, amount: int)
    requires amount >= 0
    requires forall i :: 0 <= i < |coins| ==> coins[i] >= 0
    ensures Best(coins, amount).Fin? ==>
      exists w :: MadeOf(w, coins) && Sum(w) == amount && |w| == Best(coins, amount).n
    ensures forall w :: MadeOf(w, coins) && Sum(w) == amount ==> AtMost(Best(coins, amount), |w|)
  {
    if Best(coins, amount).Fin? {
      BestSound(coins, amount);
    }
    forall w | MadeOf(w, coins) && Sum(w) == amount ensures AtMost(Best(coins, amount), |w|) {
      if coins == [] {
        EmptyCoins(w, amount);
        assert Best(coins, amount) == Fin(0);
      } else {
        BestOptimal(coins, amount, w);
      }
    }
  }
}
