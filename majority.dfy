/** `majorityElement(nums)` (90file.js:279-289): Boyer–Moore voting, then a counting pass to confirm. */
module Majority {
  import opened Common

  /** The voting pass keeps a candidate and a count; the counting pass checks the candidate. */
  method MajorityElement(s: seq<int>) returns (r: Option<int>)
    ensures r.Some? ==> 2 * multiset(s)[r.value] > |s|
    ensures r.None? ==> forall x :: 2 * multiset(s)[x] <= |s|
  {
    var cand, count := Vote(s);
    var freq := Occurrences(s, cand);
    if freq > |s| / 2 {
      return cand;
    }
    return None;
  }

  /**
   * The first pass of `majorityElement`: pairs each occurrence of the candidate
   * against a different element; any value other than the final candidate is
   * left with at most half of the sequence.
   */
  method Vote(s: seq<int>) returns (cand: Option<int>, count: int)
    ensures 0 <= count <= |s| && (cand.None? ==> count == 0)
    ensures forall x :: Some(x) != cand ==> 2 * multiset(s)[x] <= |s| - count
  {
    cand, count := None, 0;
    for i := 0 to |s|
      invariant 0 <= count <= i && (cand.None? ==> count == 0)
      invariant forall x :: Some(x) != cand ==> 2 * multiset(s[..i])[x] <= i - count
      invariant cand.Some? ==> 2 * multiset(s[..i])[cand.value] <= i + count
    {
      assert s[..i + 1] == s[..i] + [s[i]];
      ghost var y := s[i];
      assert Some(y) != cand ==> 2 * multiset(s[..i])[y] <= i - count;
      if count == 0 {
        cand := Some(s[i]);
      }
      count := count + if Some(s[i]) == cand then 1 else -1;
    }
    assert s[..|s|] == s;
  }

  /** The second pass of `majorityElement`: how often the candidate occurs (0 when there is none). */
  method Occurrences(s: seq<int>, cand: Option<int>) returns (freq: nat)
    ensures freq == if cand.Some? then multiset(s)[cand.value] else 0
  {
    freq := 0;
    for i := 0 to |s|
      invariant freq == if cand.Some? then multiset(s[..i])[cand.value] else 0
    {
      assert s[..i + 1] == s[..i] + [s[i]];
      if Some(s[i]) == cand {
        freq := freq + 1;
      }
    }
    assert s[..|s|] == s;
  }
}
