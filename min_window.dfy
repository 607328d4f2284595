/**
 * `minWindow(s, t)` (90file.js:1209-1234): the shortest stretch of `s` that
 * holds every character of `t` as often as `t` does, by a sliding window.
 * The `need` and `window` maps of counts are multisets here, and `have`
 * counts how much of `need` the window already covers.
 */
module MinWindow {
  import opened Common

  /** `s[i..j]` holds `t`'s characters with their multiplicities. */
  predicate Holds(s: string, t: string, i: int, j: int)
    requires 0 <= i <= j <= |s|
  {
    multiset(t) <= multiset(s[i..j])
  }

  /** Window `[bi, bj)` is preferred to `[i, j)`: shorter, or as short and starting no earlier (the later of equal windows wins). */
  predicate Prefer(bi: int, bj: int, i: int, j: int) {
    bj - bi < j - i || (bj - bi == j - i && bi >= i)
  }

  /** The windows looked at once the right end is at `r` and the left end at `l`: all ending by `r`, and those ending at `r + 1` starting before `l`. */
  predicate Considered(r: int, l: int, i: int, j: int) {
    j <= r || (j == r + 1 && i < l)
  }

  /** `best` is `[0, Infinity]` (`None`) while no considered window holds `t`, and otherwise the preferred one among them. */
  ghost predicate BestAmong(s: string, t: string, best: Option<(int, int)>, r: int, l: int) {
    (best.Some? ==> (0 <= best.value.0 <= best.value.1 <= |s| && Holds(s, t, best.value.0, best.value.1) &&
      Considered(r, l, best.value.0, best.value.1))) &&
    forall i, j :: 0 <= i <= j <= |s| && Considered(r, l, i, j) && Holds(s, t, i, j) ==>
      best.Some? && Prefer(best.value.0, best.value.1, i, j)
  }

  /** The inner `while`: move the left end past every start from which the window still holds `t`, recording the windows. */
  method ShrinkWindow(s: string, t: string, need: multiset<char>, r: int, l0: int, window0: multiset<char>, have0: int,
                      best0: Option<(int, int)>)
    returns (l: int, window: multiset<char>, have: int, best: Option<(int, int)>)
    requires t != [] && need == multiset(t) && 0 <= l0 <= r < |s|
    requires window0 == multiset(s[l0..r + 1]) && have0 == |need * window0|
    requires BestAmong(s, t, best0, r, l0) && HoldFrom(s, t, l0, r + 1)
    ensures l0 <= l <= r + 1 && window == multiset(s[l..r + 1]) && have == |need * window|
    ensures BestAmong(s, t, best, r, l) && HoldFrom(s, t, l, r + 1) && have != |t|
  {
    l, window, have, best := l0, window0, have0, best0;
    while have == |t|
      invariant l0 <= l <= r + 1
      invariant window == multiset(s[l..r + 1])
      invariant have == |need * window|
      invariant BestAmong(s, t, best, r, l)
      invariant HoldFrom(s, t, l, r + 1)
      decreases r + 1 - l
    {
      l, window, have, best := ShrinkOnce(s, t, need, r, l, window, have, best);
    }
  }

  /** One turn of the inner `while`: record the window if it is no longer than `best`, then drop `s[l]`. */
  method ShrinkOnce(s: string, t: string, need: multiset<char>, r: int, l0: int, window0: multiset<char>, have0: int,
                    best0: Option<(int, int)>)
    returns (l: int, window: multiset<char>, have: int, best: Option<(int, int)>)
    requires t != [] && need == multiset(t) && 0 <= l0 <= r + 1 && r < |s|
    requires window0 == multiset(s[l0..r + 1]) && have0 == |need * window0| && have0 == |t|
    requires BestAmong(s, t, best0, r, l0) && HoldFrom(s, t, l0, r + 1)
    ensures l == l0 + 1 <= r + 1 && window == multiset(s[l..r + 1]) && have == |need * window|
    ensures BestAmong(s, t, best, r, l) && HoldFrom(s, t, l, r + 1)
  {
    l, window, have, best := l0, window0, have0, best0;
    NotEmpty(s, need, l, r + 1, window, have);
    Record(s, t, best, r, l);
    HoldOneMore(s, t, l, r + 1);
    if best.None? || r - l < best.value.1 - best.value.0 {
      best := Some((l, r + 1));
    }
    var leftCh := s[l];
    ghost var window1, have1 := window, have;
    window := window - multiset{leftCh};
    if leftCh in need && window[leftCh] < need[leftCh] {
      have := have - 1;
    }
    Drop(s, need, l, r + 1, window1, have1, window, have);
    l := l + 1;
  }

  /** A window with all of a non-empty `need` counted holds `need` and is not empty. */
  lemma NotEmpty(s: string, need: multiset<char>, l: int, j: int, window: multiset<char>, have: int)
    requires 0 <= l <= j <= |s| && window == multiset(s[l..j]) && have == |need * window| && have == |need| > 0
    ensures need <= window && l < j
  {
    Full(need, window);
    SubSize(need, window);
    assert |window| == j - l;
  }

  /** Dropping `s[l]` leaves the window from `l + 1`, and loses a needed character exactly when too few remain. */
  lemma Drop(s: string, need: multiset<char>, l: int, j: int, window0: multiset<char>, have0: int,
             window: multiset<char>, have: int)
    requires 0 <= l < j <= |s| && window0 == multiset(s[l..j]) && have0 == |need * window0|
    requires window == window0 - multiset{s[l]}
    requires have == if s[l] in need && window[s[l]] < need[s[l]] then have0 - 1 else have0
    ensures window == multiset(s[l + 1..j]) && have == |need * window|
  {
    Shrink(s, l, j);
    assert s[l] in multiset(s[l..j]);
    Uncovered(need, window0, s[l]);
  }

  /** Every window from a start before `l` to `j` holds `t`. */
  predicate HoldFrom(s: string, t: string, l: int, j: int)
    requires 0 <= l <= j <= |s|
  {
    forall i :: 0 <= i < l ==> Holds(s, t, i, j)
  }

  /** `minWindow(s, t)`. */
  method MinWindow(s: string, t: string) returns (res: string)
    ensures t == [] ==> res == []
    ensures t != [] ==> (res == [] <==> forall i, j :: 0 <= i <= j <= |s| ==> !Holds(s, t, i, j))
    ensures t != [] && res != [] ==> exists bi, bj :: (0 <= bi <= bj <= |s| && res == s[bi..bj] &&
      Holds(s, t, bi, bj) && forall i, j :: 0 <= i <= j <= |s| && Holds(s, t, i, j) ==> Prefer(bi, bj, i, j))
  {
    if t == [] {
      return [];
    }
    var need: multiset<char> := multiset{};
    for k := 0 to |t|
      invariant need == multiset(t[..k])
    {
      assert t[..k + 1] == t[..k] + [t[k]];
      need := need + multiset{t[k]};
    }
    assert t[..|t|] == t;
    var have := 0;
    var needCount := |t|;
    var window: multiset<char> := multiset{};
    var best: Option<(int, int)> := None;
    var l := 0;
    for r := 0 to |s|
      invariant 0 <= l <= r
      invariant window == multiset(s[l..r])
      invariant have == |need * window|
      invariant BestAmong(s, t, best, r, 0)
      invariant HoldFrom(s, t, l, r)
    {
      var ch := s[r];
      Extend(s, l, r);
      Covered(need, window, ch);
      window := window + multiset{ch};
      if ch in need && window[ch] <= need[ch] {
        have := have + 1;
      }
      HoldLonger(s, t, l, r);
      Enter(s, t, best, r, l);
      l, window, have, best := ShrinkWindow(s, t, need, r, l, window, have, best);
      Full(need, window);
      Leave(s, t, best, r, l);
    }
    if best.None? {
      res := [];
      forall i, j | 0 <= i <= j <= |s| ensures !Holds(s, t, i, j) {
      }
    } else {
      var bi, bj := best.value.0, best.value.1;
      res := s[bi..bj];
      NonEmpty(s, t, bi, bj);
    }
  }

  /** `have === needCount` exactly when the window covers all of `need`. */
  lemma Full(need: multiset<char>, w: multiset<char>)
    ensures |need * w| == |need| <==> need <= w
  {
    if |need * w| == |need| {
      SameSize(need * w, need);
    }
    if need <= w {
      assert need * w == need;
    }
  }

  lemma SubSize(x: multiset<char>, y: multiset<char>)
    requires x <= y
    ensures |x| <= |y|
  {
    assert y == x + (y - x);
  }

  /** A sub-multiset as large as the whole is the whole. */
  lemma SameSize(x: multiset<char>, y: multiset<char>)
    requires x <= y && |x| == |y|
    ensures x == y
  {
    assert y == x + (y - x);
    assert |y - x| == 0;
  }

  /** Adding `c` to the window covers one more of `need` exactly when the window had fewer `c` than `need`. */
  lemma Covered(need: multiset<char>, w: multiset<char>, c: char)
    ensures |need * (w + multiset{c})| == |need * w| + if w[c] < need[c] then 1 else 0
  {
    if w[c] < need[c] {
      assert need * (w + multiset{c}) == need * w + multiset{c};
    } else {
      assert need * (w + multiset{c}) == need * w;
    }
  }

  /** Removing `c` from the window uncovers one of `need` exactly when the window had no more `c` than `need`. */
  lemma Uncovered(need: multiset<char>, w: multiset<char>, c: char)
    requires c in w
    ensures |need * (w - multiset{c})| == |need * w| - if w[c] <= need[c] then 1 else 0
  {
    if w[c] <= need[c] {
      assert need * w == need * (w - multiset{c}) + multiset{c};
    } else {
      assert need * (w - multiset{c}) == need * w;
    }
  }

  lemma Extend(s: string, l: int, r: int)
    requires 0 <= l <= r < |s|
    ensures multiset(s[l..r + 1]) == multiset(s[l..r]) + multiset{s[r]}
  {
    assert s[l..r + 1] == s[l..r] + [s[r]];
  }

  lemma Shrink(s: string, l: int, j: int)
    requires 0 <= l < j <= |s|
    ensures multiset(s[l + 1..j]) == multiset(s[l..j]) - multiset{s[l]}
  {
    assert s[l..j] == [s[l]] + s[l + 1..j];
  }

  /** A window holding `t` still holds it when widened. */
  lemma Widen(s: string, i': int, i: int, j: int, j': int)
    requires 0 <= i' <= i <= j <= j' <= |s|
    ensures multiset(s[i..j]) <= multiset(s[i'..j'])
  {
    assert s[i'..j'] == s[i'..i] + s[i..j] + s[j..j'];
  }

  lemma HoldLonger(s: string, t: string, l: int, r: int)
    requires 0 <= l <= r < |s| && HoldFrom(s, t, l, r)
    ensures HoldFrom(s, t, l, r + 1)
  {
    var j := r + 1;
    forall i | 0 <= i < l ensures Holds(s, t, i, j) {
      assert Holds(s, t, i, r);
      Widen(s, i, i, r, j);
    }
  }

  lemma HoldOneMore(s: string, t: string, l: int, j: int)
    requires 0 <= l < j <= |s| && HoldFrom(s, t, l, j) && Holds(s, t, l, j)
    ensures HoldFrom(s, t, l + 1, j)
  {
  }

  /** Windows ending at `r + 1` that start before `l` are longer than ones ending at `r` that already hold `t`. */
  lemma Enter(s: string, t: string, best: Option<(int, int)>, r: int, l: int)
    requires 0 <= l <= r < |s| && BestAmong(s, t, best, r, 0)
    requires HoldFrom(s, t, l, r)
    ensures BestAmong(s, t, best, r, l)
  {
    forall i, j | 0 <= i <= j <= |s| && Considered(r, l, i, j) && Holds(s, t, i, j)
      ensures best.Some? && Prefer(best.value.0, best.value.1, i, j)
    {
      if j == r + 1 {
        assert Considered(r, 0, i, r) && Holds(s, t, i, r);
      }
    }
  }

  /** Recording `[l, r + 1)` when it is no longer than `best` keeps `best` the preferred window, now including it. */
  lemma Record(s: string, t: string, best: Option<(int, int)>, r: int, l: int)
    requires 0 <= l <= r < |s| && BestAmong(s, t, best, r, l) && Holds(s, t, l, r + 1)
    ensures BestAmong(s, t, if best.None? || r - l < best.value.1 - best.value.0 then Some((l, r + 1)) else best, r, l + 1)
  {
    if best.None? || r - l < best.value.1 - best.value.0 {
      var nb := Some((l, r + 1));
      forall i, j | 0 <= i <= j <= |s| && Considered(r, l + 1, i, j) && Holds(s, t, i, j)
        ensures Prefer(l, r + 1, i, j)
      {
        if j <= r || i < l {
          assert Considered(r, l, i, j);
        }
      }
    }
  }

  /** Once the window no longer holds `t`, no window ending at `r + 1` and starting at `l` or later does. */
  lemma Leave(s: string, t: string, best: Option<(int, int)>, r: int, l: int)
    requires 0 <= l <= r + 1 <= |s| && BestAmong(s, t, best, r, l) && !Holds(s, t, l, r + 1)
    ensures BestAmong(s, t, best, r + 1, 0)
  {
    forall i, j | 0 <= i <= j <= |s| && Considered(r + 1, 0, i, j) && Holds(s, t, i, j)
      ensures best.Some? && Prefer(best.value.0, best.value.1, i, j)
    {
      if j == r + 1 && i >= l {
        Widen(s, l, i, j, j);
      }
    }
  }

  /** A window holding a non-empty `t` is not empty. */
  lemma NonEmpty(s: string, t: string, i: int, j: int)
    requires t != [] && 0 <= i <= j <= |s| && Holds(s, t, i, j)
    ensures s[i..j] != []
  {
    assert t[0] in multiset(t);
  }
}
