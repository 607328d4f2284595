/**
 * `isValidBrackets(s)` (90file.js:120-130): a stack of open brackets. Every
 * character that is not an opening bracket pops the stack and must find the
 * opener it closes; a character that closes nothing finds `undefined` on an
 * empty stack and passes, but fails against any opener.
 */
module Brackets {
  import opened Common

  predicate IsOpen(c: char) {
    c == '(' || c == '[' || c == '{'
  }

  predicate IsClose(c: char) {
    c == ')' || c == ']' || c == '}'
  }

  /** The opener a closer matches: the `match` table. */
  function Opener(c: char): char
    requires IsClose(c)
  {
    if c == ')' then '(' else if c == ']' then '[' else '{'
  }

  predicate BracketsOnly(s: string) {
    forall i :: 0 <= i < |s| ==> IsOpen(s[i]) || IsClose(s[i])
  }

  /**
   * The bracket grammar. A string is empty, or an opener, a well-formed
   * inside, its closer, and a well-formed rest. When `top` holds, any
   * character other than a bracket may also stand outside all brackets.
   */
  predicate Bal(s: string, top: bool)
    decreases |s|
  {
    s == [] ||
    (top && Other(s[0]) && Bal(s[1..], top)) ||
    exists k :: 1 <= k < |s| && Pair(s, k) && Bal(s[1..k], false) && Bal(s[k + 1..], top)
  }

  /** Neither an opening nor a closing bracket. */
  predicate Other(c: char) {
    !IsOpen(c) && !IsClose(c)
  }

  /** `s` opens with a bracket that `s[k]` closes. */
  predicate Pair(s: string, k: int) {
    1 <= k < |s| && IsOpen(s[0]) && IsClose(s[k]) && Opener(s[k]) == s[0]
  }

  /** Balanced brackets in the usual sense: nothing but properly nested pairs. */
  predicate Balanced(s: string) {
    Bal(s, false)
  }

  /** What `isValidBrackets` accepts: balanced brackets, with other characters only at depth zero. */
  predicate Accepted(s: string) {
    Bal(s, true)
  }

  /** One turn of the loop: push an opener, or pop and compare. `None` is `return false`. */
  function Step(st: seq<char>, c: char): Option<seq<char>> {
    if IsOpen(c) then Some(st + [c])
    else if st == [] then (if IsClose(c) then None else Some(st))
    else if IsClose(c) && st[|st| - 1] == Opener(c) then Some(st[..|st| - 1])
    else None
  }

  /** The loop over `s` from stack `st`: the final stack, or `None` once it has returned false. */
  function Run(st: seq<char>, s: string): Option<seq<char>>
    decreases |s|
  {
    if s == [] then Some(st)
    else match Step(st, s[0])
      case None => None
      case Some(st') => Run(st', s[1..])
  }

  /** `isValidBrackets(s)`. */
  method IsValidBrackets(s: string) returns (ok: bool)
    ensures ok <==> Accepted(s)
  {
    var stack: seq<char> := [];
    for k := 0 to |s|
      invariant Run([], s) == Run(stack, s[k..])
    {
      assert s[k..][1..] == s[k + 1..];
      var c := s[k];
      if IsOpen(c) {
        stack := stack + [c];
      } else if stack == [] {
        if IsClose(c) {
          ok := false;
          Accept(s);
          return;
        }
      } else if IsClose(c) && stack[|stack| - 1] == Opener(c) {
        stack := stack[..|stack| - 1];
      } else {
        ok := false;
        Accept(s);
        return;
      }
    }
    ok := stack == [];
    Accept(s);
  }

  /** The loop ends with an empty stack exactly on the strings of the grammar. */
  lemma Accept(s: string)
    ensures Run([], s) == Some([]) <==> Accepted(s)
  {
    if Run([], s) == Some([]) {
      Sound([], s);
      assert [] + s == s;
    }
    if Accepted(s) {
      Complete(s, true, []);
    }
  }

  /** `Run` over a concatenation is the run over the first part followed by the run over the second. */
  lemma {:induction false} RunConcat(st: seq<char>, a: string, b: string)
    ensures Run(st, a + b) == match Run(st, a) case None => None case Some(t) => Run(t, b)
    decreases |a|
  {
    if a == [] {
      assert a + b == b;
    } else {
      assert (a + b)[0] == a[0] && (a + b)[1..] == a[1..] + b;
      match Step(st, a[0])
      case None =>
      case Some(st') => RunConcat(st', a[1..], b);
    }
  }

  /** A grammatical string leaves the stack as it found it. */
  lemma {:induction false} Complete(s: string, top: bool, st: seq<char>)
    requires Bal(s, top) && (top ==> st == [])
    ensures Run(st, s) == Some(st)
    decreases |s|
  {
    if s == [] {
    } else if top && Other(s[0]) && Bal(s[1..], top) {
      Complete(s[1..], top, st);
    } else {
      var k :| 1 <= k < |s| && Pair(s, k) && Bal(s[1..k], false) && Bal(s[k + 1..], top);
      Complete(s[1..k], false, st + [s[0]]);
      Complete(s[k + 1..], top, st);
      RunPair(s, k, st);
    }
  }

  /** An opener, an inside that leaves the stack alone, the matching closer and a rest that does too. */
  lemma RunPair(s: string, k: int, st: seq<char>)
    requires 1 <= k < |s| && Pair(s, k)
    requires Run(st + [s[0]], s[1..k]) == Some(st + [s[0]]) && Run(st, s[k + 1..]) == Some(st)
    ensures Run(st, s) == Some(st)
  {
    assert s[1..] == s[1..k] + ([s[k]] + s[k + 1..]);
    RunConcat(st + [s[0]], s[1..k], [s[k]] + s[k + 1..]);
    assert ([s[k]] + s[k + 1..])[1..] == s[k + 1..];
    assert (st + [s[0]])[..|st|] == st;
  }

  predicate Openers(st: seq<char>) {
    forall i :: 0 <= i < |st| ==> IsOpen(st[i])
  }

  /** A run from a stack of openers that ends empty reads, with the stack in front, as an accepted string. */
  lemma {:induction false} Sound(st: seq<char>, s: string)
    requires Openers(st) && Run(st, s) == Some([])
    ensures Bal(st + s, true)
    decreases |s|
  {
    if s == [] {
      assert st + s == [];
    } else if IsOpen(s[0]) {
      var pushed := st + [s[0]];
      assert Step(st, s[0]) == Some(pushed);
      Sound(pushed, s[1..]);
      assert pushed + s[1..] == st + s;
    } else if st == [] {
      SoundOther(s);
      assert st + s == s;
    } else {
      SoundClose(st, s);
    }
  }

  /** A character other than a bracket, met with an empty stack. */
  lemma {:induction false} SoundOther(s: string)
    requires s != [] && !IsOpen(s[0]) && Run([], s) == Some([])
    ensures Bal(s, true)
    decreases |s|, 0
  {
    assert Step([], s[0]) == Some([]);
    assert Other(s[0]);
    Sound([], s[1..]);
    assert [] + s[1..] == s[1..];
  }

  /** A closer that pops its opener. */
  lemma {:induction false} SoundClose(st: seq<char>, s: string)
    requires Openers(st) && st != [] && s != [] && !IsOpen(s[0]) && Run(st, s) == Some([])
    ensures Bal(st + s, true)
    decreases |s|, 0
  {
    var c, o := s[0], st[|st| - 1];
    var st' := st[..|st| - 1];
    assert Step(st, c) == Some(st');
    assert IsClose(c) && Opener(c) == o;
    Sound(st', s[1..]);
    InsertPair(st', s[1..], o, c, true);
    PopPush(st, s);
  }

  lemma PopPush(st: seq<char>, s: string)
    requires st != [] && s != []
    ensures st[..|st| - 1] + [st[|st| - 1], s[0]] + s[1..] == st + s
  {
  }

  /** Inserting a matched pair anywhere keeps a string in the grammar. */
  lemma {:induction false} InsertPair(u: string, v: string, o: char, c: char, top: bool)
    requires Bal(u + v, top) && IsClose(c) && Opener(c) == o
    ensures Bal(u + [o, c] + v, top)
    decreases |u| + |v|, 1
  {
    var w := u + v;
    if u == [] {
      assert w == v;
      InsertFront(v, o, c, top);
    } else if top && Other(w[0]) && Bal(w[1..], top) {
      InsertPast(u, v, o, c, top);
    } else {
      var k :| 1 <= k < |w| && Pair(w, k) && Bal(w[1..k], false) && Bal(w[k + 1..], top);
      if |u| <= k {
        InsertInside(u, v, o, c, top, k);
      } else {
        InsertAfter(u, v, o, c, top, k);
      }
    }
  }

  /** A matched pair in front of a string in the grammar. */
  lemma InsertFront(v: string, o: char, c: char, top: bool)
    requires Bal(v, top) && IsClose(c) && Opener(c) == o
    ensures Bal([] + [o, c] + v, top)
  {
    var x := [] + [o, c] + v;
    assert x[1..1] == [] && x[2..] == v;
    assert Pair(x, 1) && Bal(x[1..1], false) && Bal(x[2..], top);
  }

  /** The pair goes after a leading character that is not a bracket. */
  lemma {:induction false} InsertPast(u: string, v: string, o: char, c: char, top: bool)
    requires u != [] && top && Other((u + v)[0]) && Bal((u + v)[1..], top) && IsClose(c) && Opener(c) == o
    ensures Bal(u + [o, c] + v, top)
    decreases |u| + |v|, 0
  {
    var x := u + [o, c] + v;
    assert (u + v)[1..] == u[1..] + v;
    InsertPair(u[1..], v, o, c, top);
    assert x[1..] == u[1..] + [o, c] + v;
    assert x[0] == (u + v)[0];
  }

  /** The pair goes inside the first bracket of `u + v`, which closes at `k`. */
  lemma {:induction false} InsertInside(u: string, v: string, o: char, c: char, top: bool, k: int)
    requires 1 <= |u| <= k < |u + v| && Pair(u + v, k) && IsClose(c) && Opener(c) == o
    requires Bal((u + v)[1..k], false) && Bal((u + v)[k + 1..], top)
    ensures Bal(u + [o, c] + v, top)
    decreases |u| + |v|, 0
  {
    var p := |u|;
    InsideSlices(u, v, o, c, k);
    InsertPair(u[1..], v[..k - p], o, c, false);
    assert Pair(u + [o, c] + v, k + 2);
  }

  /** How the pieces of `u + v` around position `k` reappear once the pair sits inside. */
  lemma InsideSlices(u: string, v: string, o: char, c: char, k: int)
    requires 1 <= |u| <= k < |u + v|
    ensures (u + v)[1..k] == u[1..] + v[..k - |u|]
    ensures (u + [o, c] + v)[1..k + 2] == u[1..] + [o, c] + v[..k - |u|]
    ensures (u + [o, c] + v)[k + 3..] == (u + v)[k + 1..]
    ensures (u + [o, c] + v)[0] == (u + v)[0] && (u + [o, c] + v)[k + 2] == (u + v)[k]
  {
  }

  /** The pair goes after the first bracket of `u + v`, which closes at `k`. */
  lemma {:induction false} InsertAfter(u: string, v: string, o: char, c: char, top: bool, k: int)
    requires 1 <= k < |u| && Pair(u + v, k) && IsClose(c) && Opener(c) == o
    requires Bal((u + v)[1..k], false) && Bal((u + v)[k + 1..], top)
    ensures Bal(u + [o, c] + v, top)
    decreases |u| + |v|, 0
  {
    var x := u + [o, c] + v;
    AfterSlices(u, v, o, c, k);
    InsertPair(u[k + 1..], v, o, c, top);
    assert Pair(x, k) && Bal(x[1..k], false) && Bal(x[k + 1..], top);
  }

  /** How the pieces of `u + v` around position `k` reappear once the pair sits after it. */
  lemma AfterSlices(u: string, v: string, o: char, c: char, k: int)
    requires 1 <= k < |u|
    ensures (u + v)[k + 1..] == u[k + 1..] + v
    ensures (u + [o, c] + v)[1..k] == (u + v)[1..k]
    ensures (u + [o, c] + v)[k + 1..] == u[k + 1..] + [o, c] + v
    ensures (u + [o, c] + v)[0] == (u + v)[0] && (u + [o, c] + v)[k] == (u + v)[k]
  {
  }

  /** On strings of brackets alone, `isValidBrackets` accepts exactly the balanced ones. */
  lemma {:induction false} BracketsOnlyBalanced(s: string)
    requires BracketsOnly(s)
    ensures Accepted(s) <==> Balanced(s)
    decreases |s|
  {
    if s != [] {
      if Accepted(s) {
        var k :| 1 <= k < |s| && Pair(s, k) && Bal(s[1..k], false) && Bal(s[k + 1..], true);
        BracketsOnlyBalanced(s[k + 1..]);
      }
      if Balanced(s) {
        var k :| 1 <= k < |s| && Pair(s, k) && Bal(s[1..k], false) && Bal(s[k + 1..], false);
        BracketsOnlyBalanced(s[k + 1..]);
      }
    }
  }

  /** A character other than a bracket passes at depth zero... */
  lemma OtherOutside()
    ensures Accepted("a()") && Accepted("()a")
  {
    Accept("a()");
    Accept("()a");
  }

  /** ...and fails inside brackets; a wrong or unopened closer fails too. */
  lemma OtherInside()
    ensures !Accepted("(a)") && !Accepted("(]") && !Accepted(")")
  {
    Accept("(a)");
    Accept("(]");
    Accept(")");
  }
}
