/**
 * compressString and expandCompressed (90file.js:1281-1307): run-length coding
 * in which each run of one character is written as the character followed by the
 * decimal length of the run ("aaabb" -> "a3b2"), and read back by taking a
 * character and then every digit after it as the count (no digits means 1).
 */
module RunLength {
  import opened Decimal

  /** A run: a character and how many times it repeats. */
  type Run = (char, nat)

  /** How far the run of `s[0]` at the start of `s` extends, searching from `k`. */
  function LeadLen(s: string, k: nat): (r: nat)
    requires 1 <= k <= |s|
    ensures k <= r <= |s|
    ensures forall j :: k <= j < r ==> s[j] == s[0]
    ensures r == |s| || s[r] != s[0]
    decreases |s| - k
  {
    if k < |s| && s[k] == s[0] then LeadLen(s, k + 1) else k
  }

  /** The maximal runs of `s`, left to right. */
  function Runs(s: string): seq<Run>
    decreases |s|
  {
    if s == [] then []
    else
      var k := LeadLen(s, 1);
      [(s[0], k)] + Runs(s[k..])
  }

  /** The text `compressString` writes for a list of runs. */
  function Encode(runs: seq<Run>): string {
    if runs == [] then "" else [runs[0].0] + NatToString(runs[0].1) + Encode(runs[1..])
  }

  function Repeat(c: char, n: nat): (r: string)
    ensures |r| == n && forall i :: 0 <= i < n ==> r[i] == c
  {
    seq(n, _ => c)
  }

  /** The text a list of runs stands for. */
  function Decode(runs: seq<Run>): string {
    if runs == [] then "" else Repeat(runs[0].0, runs[0].1) + Decode(runs[1..])
  }

  /** A run of exactly `count` copies of `s[0]` starts `s`. */
  lemma {:induction false} LeadLenExact(s: string, count: nat, k: nat)
    requires 1 <= k <= count <= |s|
    requires forall j :: 0 <= j < count ==> s[j] == s[0]
    requires count == |s| || s[count] != s[0]
    ensures LeadLen(s, k) == count
    decreases count - k
  {
    if k < count {
      LeadLenExact(s, count, k + 1);
    }
  }

  /** The runs of a string decode back to the string. */
  lemma {:induction false} RunsDecode(s: string)
    ensures Decode(Runs(s)) == s
    decreases |s|
  {
    if s != [] {
      var k := LeadLen(s, 1);
      RunsDecode(s[k..]);
      RepeatPrefix(s, k);
    }
  }

  lemma RepeatPrefix(s: string, k: nat)
    requires 1 <= k <= |s| && forall j :: 1 <= j < k ==> s[j] == s[0]
    ensures Repeat(s[0], k) + s[k..] == s
  {
    assert Repeat(s[0], k) == s[..k];
    assert s[..k] + s[k..] == s;
  }

  /** A maximal run of length `i - b` starts at `b`. */
  lemma RunsSplit(s: string, b: nat, i: nat)
    requires b < i <= |s|
    requires forall j :: b <= j < i ==> s[j] == s[b]
    requires i == |s| || s[i] != s[b]
    ensures Runs(s[b..]) == [(s[b], i - b)] + Runs(s[i..])
  {
    var t := s[b..];
    LeadLenExact(t, i - b, 1);
    assert t[i - b..] == s[i..];
  }

  /** Every run is at least one character long, and its character comes from the string. */
  lemma {:induction false} RunsShape(s: string)
    ensures forall r <- Runs(s) :: r.1 >= 1 && r.0 in s
    decreases |s|
  {
    if s != [] {
      var k := LeadLen(s, 1);
      RunsShape(s[k..]);
      forall r <- Runs(s[k..]) ensures r.0 in s {
        assert r.0 in s[k..];
      }
    }
  }

  /** `compressString(s)`: one pass counting repeats of the previous character. */
  method CompressString(s: string) returns (res: string)
    ensures res == Encode(Runs(s))
  {
    if s == [] {
      return "";
    }
    res := "";
    ghost var done: seq<Run> := [];
    var count := 1;
    var i := 1;
    assert s[0..] == s;
    while i <= |s|
      invariant Scanned(s, i, count, res, done)
      decreases |s| + 1 - i
    {
      res, count, done := Scan(s, i, count, res, done);
      i := i + 1;
    }
    assert s[|s|..] == [];
    assert done == Runs(s);
  }

  /**
   * The state of `compressString` before it looks at `s[i]`: the runs before the
   * current one are written, and the current run holds `count` copies of `s[i - 1]`.
   */
  ghost predicate Scanned(s: string, i: int, count: int, res: string, done: seq<Run>) {
    1 <= i <= |s| + 1 && 1 <= count <= i &&
    (i <= |s| ==> forall j :: i - count <= j < i ==> s[j] == s[i - count]) &&
    (i == |s| + 1 ==> count == 1) &&
    res == Encode(done) && done + Runs(s[i - count..]) == Runs(s)
  }

  /** One turn of the loop of `compressString`: extend the current run, or write it out. */
  method Scan(s: string, i: int, count0: int, res0: string, ghost done0: seq<Run>)
    returns (res: string, count: int, ghost done: seq<Run>)
    requires i <= |s| && Scanned(s, i, count0, res0, done0)
    ensures Scanned(s, i + 1, count, res, done)
  {
    var b := i - count0;
    if i < |s| && s[i] == s[i - 1] {
      assert s[i] == s[b];
      res, count, done := res0, count0 + 1, done0;
    } else {
      CompressStep(s, done0, b, i);
      done := done0 + [(s[i - 1], count0)];
      res := res0 + [s[i - 1]] + NatToString(count0);
      count := 1;
    }
  }

  /** Closing the run from `b` to `i` moves it from the runs still to come to the runs written. */
  lemma CompressStep(s: string, done: seq<Run>, b: nat, i: nat)
    requires b < i <= |s|
    requires forall j :: b <= j < i ==> s[j] == s[b]
    requires i == |s| || s[i] != s[b]
    ensures done + Runs(s[b..]) == (done + [(s[i - 1], i - b)]) + Runs(s[i..])
    ensures Encode(done + [(s[i - 1], i - b)]) == Encode(done) + [s[i - 1]] + NatToString(i - b)
  {
    var run := (s[i - 1], i - b);
    RunsSplit(s, b, i);
    assert done + ([run] + Runs(s[i..])) == (done + [run]) + Runs(s[i..]);
    EncodeSnoc(done, s[i - 1], i - b);
  }

  /** Writing one more run appends its character and count. */
  lemma EncodeSnoc(done: seq<Run>, c: char, n: nat)
    ensures Encode(done + [(c, n)]) == Encode(done) + [c] + NatToString(n)
  {
    var one: seq<Run> := [(c, n)];
    EncodeAppend(done, one);
    assert one[1..] == [];
    assert Encode(one) == [c] + NatToString(n) + "";
    assert Encode(done) + ([c] + NatToString(n)) == Encode(done) + [c] + NatToString(n);
  }

  lemma {:induction false} EncodeAppend(a: seq<Run>, b: seq<Run>)
    ensures Encode(a + b) == Encode(a) + Encode(b)
  {
    if a == [] {
      assert a + b == b;
    } else {
      assert (a + b)[0] == a[0] && (a + b)[1..] == a[1..] + b;
      EncodeAppend(a[1..], b);
    }
  }

  /** The length of the longest prefix of `t` made of digits. */
  function DigitPrefix(t: string): (r: nat)
    ensures r <= |t| && AllDigits(t[..r])
    ensures r < |t| ==> !IsDigit(t[r])
  {
    if t != [] && IsDigit(t[0]) then
      var r := 1 + DigitPrefix(t[1..]);
      assert t[..r] == [t[0]] + t[1..][..r - 1];
      r
    else 0
  }

  /** What `expandCompressed(s)` returns. */
  function Expand(s: string): string
    decreases |s|
  {
    if s == [] then ""
    else
      var t := s[1..];
      var d := DigitPrefix(t);
      var count := if d == 0 then 1 else DigitsValue(t[..d]);
      Repeat(s[0], count) + Expand(s[1 + d..])
  }

  /** The digit prefix is exactly the digits that come before the first non-digit. */
  lemma {:induction false} DigitPrefixExact(t: string, m: nat)
    requires m <= |t| && AllDigits(t[..m]) && (m < |t| ==> !IsDigit(t[m]))
    ensures DigitPrefix(t) == m
  {
    if m > 0 {
      assert IsDigit(t[..m][0]);
      assert t[1..][..m - 1] == t[..m][1..];
      DigitPrefixExact(t[1..], m - 1);
    }
  }

  /** `expandCompressed(s)`: read a character, then all digits after it as the count. */
  method ExpandCompressed(s: string) returns (res: string)
    ensures res == Expand(s)
  {
    res := "";
    var i := 0;
    assert s[0..] == s;
    while i < |s|
      invariant 0 <= i <= |s|
      invariant res + Expand(s[i..]) == Expand(s)
    {
      var start := i;
      var ch := s[i];
      i := i + 1;
      var num;
      num, i := ReadDigits(s, i);
      ExpandStep(res, s, start, i);
      res := res + Repeat(ch, if num == "" then 1 else DigitsValue(num));
    }
    assert s[i..] == [];
  }

  /** The inner loop of `expandCompressed`: collect the digits from `i0` on. */
  method ReadDigits(s: string, i0: nat) returns (num: string, i: nat)
    requires i0 <= |s|
    ensures i0 <= i <= |s| && num == s[i0..i] && AllDigits(num)
    ensures i < |s| ==> !IsDigit(s[i])
  {
    i := i0;
    num := "";
    while i < |s| && IsDigit(s[i])
      invariant i0 <= i <= |s|
      invariant num == s[i0..i] && AllDigits(num)
    {
      num := num + [s[i]];
      i := i + 1;
    }
  }

  /** One character and the digits after it, from `start` up to `i`, expand to one piece. */
  lemma ExpandStep(acc: string, s: string, start: nat, i: nat)
    requires start < i <= |s| && AllDigits(s[start + 1..i]) && (i < |s| ==> !IsDigit(s[i]))
    ensures acc + Expand(s[start..]) ==
      (acc + Repeat(s[start], if i == start + 1 then 1 else DigitsValue(s[start + 1..i]))) + Expand(s[i..])
  {
    var piece := Repeat(s[start], if i == start + 1 then 1 else DigitsValue(s[start + 1..i]));
    ExpandPiece(s, start, i);
    assert acc + (piece + Expand(s[i..])) == (acc + piece) + Expand(s[i..]);
  }

  lemma ExpandPiece(s: string, start: nat, i: nat)
    requires start < i <= |s| && AllDigits(s[start + 1..i]) && (i < |s| ==> !IsDigit(s[i]))
    ensures Expand(s[start..]) ==
      Repeat(s[start], if i == start + 1 then 1 else DigitsValue(s[start + 1..i])) + Expand(s[i..])
  {
    var t := s[start..];
    var d := i - start - 1;
    assert t[1..][..d] == s[start + 1..i];
    DigitPrefixExact(t[1..], d);
    assert t[1 + d..] == s[i..];
  }

  /** Runs without digit characters and with positive counts expand back from their encoding. */
  lemma {:induction false} ExpandEncode(runs: seq<Run>)
    requires forall r <- runs :: r.1 >= 1 && !IsDigit(r.0)
    ensures Expand(Encode(runs)) == Decode(runs)
  {
    if runs != [] {
      var (c, k) := runs[0];
      var digits := NatToString(k);
      var rest := Encode(runs[1..]);
      var s := [c] + digits + rest;
      assert s == Encode(runs);
      assert s[1..] == digits + rest;
      assert rest != [] ==> rest[0] == runs[1].0;
      DigitPrefixExact(s[1..], |digits|);
      assert s[1..][..|digits|] == digits;
      assert s[1..1 + |digits|] == digits;
      NatToStringValue(k);
      assert s[1 + |digits|..] == rest;
      ExpandEncode(runs[1..]);
    }
  }

  /** Round trip: expanding the compression of a string without digits gives the string back. */
  lemma RunLengthRoundTrip(s: string)
    requires forall c <- s :: !IsDigit(c)
    ensures Expand(Encode(Runs(s))) == s
  {
    RunsShape(s);
    ExpandEncode(Runs(s));
    RunsDecode(s);
  }
}
