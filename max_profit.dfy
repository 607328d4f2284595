/** `maxProfit(prices)` (90file.js:1253-1260): the best single buy-then-sell profit, or 0. */
module MaxProfit {
  import opened Common

  /** The running minimum starts at `Infinity`, written `None`; `p - Infinity` never beats `best`. */
  method MaxProfit(prices: seq<int>) returns (best: int)
    ensures best >= 0
    ensures forall i, j :: 0 <= i < j < |prices| ==> prices[j] - prices[i] <= best
    ensures best == 0 || exists i, j :: 0 <= i < j < |prices| && best == prices[j] - prices[i]
  {
    var minP: Option<int> := None;
    best := 0;
    for k := 0 to |prices|
      invariant k == 0 <==> minP.None?
      invariant minP.Some? ==> exists i :: 0 <= i < k && prices[i] == minP.value
      invariant minP.Some? ==> forall i :: 0 <= i < k ==> minP.value <= prices[i]
      invariant best >= 0
      invariant forall i, j :: 0 <= i < j < k ==> prices[j] - prices[i] <= best
      invariant best == 0 || exists i, j :: 0 <= i < j < k && best == prices[j] - prices[i]
    {
      var p := prices[k];
      if minP.Some? {
        best := Max(best, p - minP.value);
      }
      minP := Some(if minP.Some? then Min(minP.value, p) else p);
    }
  }
}
