/**
 * `reverseWordsOrder(s)` (90file.js:477-479) and `isRotation(a, b)`
 * (90file.js:505-507): string utilities built on `trim`, `split(/\s+/)`,
 * `join(" ")` and `includes`, whose meaning is written out here.
 */
module Words {
  import opened Common

  /** The characters JavaScript's `\s` and `trim` treat as white space. */
  predicate IsSpace(c: char) {
    c == ' ' || c == '\t' || c == '\n' || c == '\r' || c == '\U{000B}' || c == '\U{000C}' ||
    c == '\U{00A0}' || c == '\U{1680}' || '\U{2000}' <= c <= '\U{200A}' || c == '\U{2028}' ||
    c == '\U{2029}' || c == '\U{202F}' || c == '\U{205F}' || c == '\U{3000}' || c == '\U{FEFF}'
  }

  predicate NoSpace(w: string) {
    forall i :: 0 <= i < |w| ==> !IsSpace(w[i])
  }

  /** A word list `join` and `split` agree on: at least one word, none empty, none with white space. */
  predicate CleanWords(ws: seq<string>) {
    ws != [] && forall k :: 0 <= k < |ws| ==> ws[k] != [] && NoSpace(ws[k])
  }

  function TrimStart(s: string): string {
    if s != [] && IsSpace(s[0]) then TrimStart(s[1..]) else s
  }

  function TrimEnd(s: string): string {
    if s != [] && IsSpace(s[|s| - 1]) then TrimEnd(s[..|s| - 1]) else s
  }

  /** `s.trim()`. */
  function Trim(s: string): string {
    TrimEnd(TrimStart(s))
  }

  /** The first white-space position at or after `i`, or `|t|`. */
  function SpaceFrom(t: string, i: nat): (j: nat)
    requires i <= |t|
    ensures i <= j <= |t| && (j < |t| ==> IsSpace(t[j]))
    ensures forall p :: i <= p < j ==> !IsSpace(t[p])
    decreases |t| - i
  {
    if i == |t| || IsSpace(t[i]) then i else SpaceFrom(t, i + 1)
  }

  /** The end of the white-space run that starts at or after `i`. */
  function RunEnd(t: string, i: nat): (j: nat)
    requires i <= |t|
    ensures i <= j <= |t| && (j < |t| ==> !IsSpace(t[j]))
    ensures forall p :: i <= p < j ==> IsSpace(t[p])
    decreases |t| - i
  {
    if i == |t| || !IsSpace(t[i]) then i else RunEnd(t, i + 1)
  }

  /** `t.split(/\s+/)`: the pieces between maximal runs of white space. */
  function SplitRuns(t: string): seq<string>
    decreases |t|
  {
    var i := SpaceFrom(t, 0);
    if i == |t| then [t] else [t[..i]] + SplitRuns(t[RunEnd(t, i)..])
  }

  /** `ws.join(" ")`. */
  function Join(ws: seq<string>): string {
    if ws == [] then "" else if |ws| == 1 then ws[0] else ws[0] + " " + Join(ws[1..])
  }

  /** `reverseWordsOrder(s)`. */
  function ReverseWordsOrder(s: string): string {
    Join(Reversed(SplitRuns(Trim(s))))
  }

  /** A trimmed string is empty or starts and ends with a character that is not white space. */
  lemma {:induction false} TrimEnds(s: string)
    ensures Trim(s) != [] ==> !IsSpace(Trim(s)[0]) && !IsSpace(Trim(s)[|Trim(s)| - 1])
  {
    TrimStartEnds(s);
    TrimEndKeepsFront(TrimStart(s));
    TrimEndEnds(TrimStart(s));
  }

  lemma {:induction false} TrimStartEnds(s: string)
    ensures TrimStart(s) != [] ==> !IsSpace(TrimStart(s)[0])
  {
    if s != [] && IsSpace(s[0]) {
      TrimStartEnds(s[1..]);
    }
  }

  lemma {:induction false} TrimEndEnds(s: string)
    ensures TrimEnd(s) != [] ==> !IsSpace(TrimEnd(s)[|TrimEnd(s)| - 1])
  {
    if s != [] && IsSpace(s[|s| - 1]) {
      TrimEndEnds(s[..|s| - 1]);
    }
  }

  /** Trimming the end keeps a prefix, so a first character that is not white space stays first. */
  lemma {:induction false} TrimEndKeepsFront(s: string)
    ensures |TrimEnd(s)| <= |s| && TrimEnd(s) == s[..|TrimEnd(s)|]
    ensures s != [] && !IsSpace(s[0]) ==> TrimEnd(s) != [] && TrimEnd(s)[0] == s[0]
  {
    if s != [] && IsSpace(s[|s| - 1]) {
      TrimEndKeepsFront(s[..|s| - 1]);
    }
  }

  /** Splitting a string that is trimmed and not empty gives clean words. */
  lemma {:induction false} SplitClean(t: string)
    requires t != [] && !IsSpace(t[0]) && !IsSpace(t[|t| - 1])
    ensures CleanWords(SplitRuns(t))
    decreases |t|
  {
    var i := SpaceFrom(t, 0);
    if i < |t| {
      var j := RunEnd(t, i);
      assert j < |t|;
      var rest := t[j..];
      SplitClean(rest);
      var ws := SplitRuns(t);
      assert ws == [t[..i]] + SplitRuns(rest);
      forall k | 0 <= k < |ws| ensures ws[k] != [] && NoSpace(ws[k]) {
        if k > 0 {
          assert ws[k] == SplitRuns(rest)[k - 1];
        }
      }
    } else {
      assert NoSpace(t);
    }
  }

  /** Joining clean words gives a string that is not empty and neither starts nor ends with white space. */
  lemma {:induction false} JoinEnds(ws: seq<string>)
    requires CleanWords(ws)
    ensures Join(ws) != [] && !IsSpace(Join(ws)[0]) && !IsSpace(Join(ws)[|Join(ws)| - 1])
  {
    if |ws| > 1 {
      assert CleanWords(ws[1..]) by {
        forall k | 0 <= k < |ws[1..]| ensures ws[1..][k] != [] && NoSpace(ws[1..][k]) {
          assert ws[1..][k] == ws[k + 1];
        }
      }
      JoinEnds(ws[1..]);
    }
  }

  /** `join(" ")` then `split(/\s+/)` gives clean words back. */
  lemma {:induction false} SplitJoin(ws: seq<string>)
    requires CleanWords(ws)
    ensures SplitRuns(Join(ws)) == ws
  {
    var t := Join(ws);
    var w := ws[0];
    if |ws| == 1 {
      assert SpaceFrom(t, 0) == |t| by {
        SpaceFromNoSpace(t, 0);
      }
    } else {
      var rest := ws[1..];
      assert CleanWords(rest) by {
        forall k | 0 <= k < |rest| ensures rest[k] != [] && NoSpace(rest[k]) {
          assert rest[k] == ws[k + 1];
        }
      }
      JoinEnds(rest);
      var u := Join(rest);
      assert t == w + " " + u;
      SpaceFromAt(t, 0, |w|);
      assert RunEnd(t, |w|) == |w| + 1 by {
        assert t[|w| + 1] == u[0];
        assert RunEnd(t, |w| + 1) == |w| + 1;
      }
      assert t[..|w|] == w;
      assert t[|w| + 1..] == u;
      SplitJoin(rest);
    }
  }

  lemma {:induction false} SpaceFromNoSpace(t: string, i: nat)
    requires i <= |t| && forall p :: i <= p < |t| ==> !IsSpace(t[p])
    ensures SpaceFrom(t, i) == |t|
    decreases |t| - i
  {
    if i < |t| {
      SpaceFromNoSpace(t, i + 1);
    }
  }

  /** In `w + " " + u` with `w` free of white space, the first white space is the separator. */
  lemma {:induction false} SpaceFromAt(t: string, i: nat, n: nat)
    requires i <= n < |t| && IsSpace(t[n]) && forall p :: i <= p < n ==> !IsSpace(t[p])
    ensures SpaceFrom(t, i) == n
    decreases n - i
  {
    if i < n {
      SpaceFromAt(t, i + 1, n);
    }
  }

  /** Trimming changes nothing at either end that is not white space. */
  lemma {:induction false} TrimClean(t: string)
    requires t != [] && !IsSpace(t[0]) && !IsSpace(t[|t| - 1])
    ensures Trim(t) == t
  {
  }

  /** The reversed word list is still a list of clean words, read from the back. */
  lemma ReversedClean(ws: seq<string>)
    requires CleanWords(ws)
    ensures CleanWords(Reversed(ws)) && |Reversed(ws)| == |ws|
    ensures forall k :: 0 <= k < |ws| ==> Reversed(ws)[k] == ws[|ws| - 1 - k]
  {
    forall k | 0 <= k < |ws| ensures Reversed(ws)[k] != [] && NoSpace(Reversed(ws)[k]) {
      assert Reversed(ws)[k] == ws[|ws| - 1 - k];
    }
  }

  /**
   * The words of the result are the words of `s` in reverse order (and a
   * string with no words gives ""), so reversing twice leaves the words of
   * `s` joined by single spaces.
   */
  lemma ReverseWordsMeaning(s: string)
    ensures Trim(s) == [] ==> ReverseWordsOrder(s) == []
    ensures Trim(s) != [] ==> SplitRuns(Trim(ReverseWordsOrder(s))) == Reversed(SplitRuns(Trim(s)))
    ensures ReverseWordsOrder(ReverseWordsOrder(s)) == Join(SplitRuns(Trim(s)))
  {
    var t := Trim(s);
    TrimEnds(s);
    if t == [] {
      assert SplitRuns(t) == [""];
      assert Reversed([""]) == [""];
    } else {
      SplitClean(t);
      var ws := SplitRuns(t);
      ReversedClean(ws);
      JoinEnds(Reversed(ws));
      TrimClean(Join(Reversed(ws)));
      SplitJoin(Reversed(ws));
      ReversedTwice(ws);
    }
  }

  /** `(a + a).includes(b)`: `b` occurs in `h` at some position. */
  predicate Includes(h: string, b: string) {
    exists i :: 0 <= i <= |h| - |b| && OccursAt(h, b, i)
  }

  predicate OccursAt(h: string, b: string, i: int) {
    0 <= i <= |h| - |b| && h[i..i + |b|] == b
  }

  /** `isRotation(a, b)`. */
  predicate IsRotation(a: string, b: string) {
    |a| == |b| && Includes(a + a, b)
  }

  /** `b` is a rotation of `a` exactly when it is some suffix of `a` followed by the matching prefix. */
  lemma IsRotationMeaning(a: string, b: string)
    ensures IsRotation(a, b) <==> exists k :: 0 <= k <= |a| && b == a[k..] + a[..k]
  {
    var h := a + a;
    if IsRotation(a, b) {
      var i :| 0 <= i <= |h| - |b| && OccursAt(h, b, i);
      assert h[i..|a|] == a[i..] && h[|a|..|a| + i] == a[..i];
      assert h[i..i + |a|] == h[i..|a|] + h[|a|..|a| + i];
    }
    if exists k :: 0 <= k <= |a| && b == a[k..] + a[..k] {
      var k :| 0 <= k <= |a| && b == a[k..] + a[..k];
      assert OccursAt(h, b, k);
    }
  }
}
