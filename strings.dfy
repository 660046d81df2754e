/** String operations of the JavaScript runtime that the modelled code relies on
    (`startsWith`, `indexOf`, `includes`, `split`, `join`, `trim`, `replace`),
    written over `seq<char>`. */
module Strings {

  /** `s.startsWith(p)` */
  predicate StartsWith(s: string, p: string) {
    |p| <= |s| && s[..|p|] == p
  }

  /** `s.endsWith(p)` */
  predicate EndsWith(s: string, p: string) {
    |p| <= |s| && s[|s| - |p|..] == p
  }

  /** `s.includes(p)`: `p` occurs somewhere in `s`. */
  predicate Contains(s: string, p: string)
    decreases |s|
  {
    StartsWith(s, p) || (|s| > 0 && Contains(s[1..], p))
  }

  /** `s.indexOf(c)` for a single character: -1 when absent. */
  function IndexOf(s: string, c: char): (i: int)
    ensures -1 <= i < |s|
    ensures i == -1 <==> c !in s
    ensures 0 <= i ==> s[i] == c && c !in s[..i]
  {
    var i := IndexFrom(s, c, 0);
    assert i == -1 ==> forall m :: 0 <= m < |s| ==> s[m] != c;
    assert 0 <= i ==> forall m :: 0 <= m < i ==> s[..i][m] != c;
    i
  }

  /** The first index at or after `k` holding `c`, or -1. */
  function IndexFrom(s: string, c: char, k: nat): (i: int)
    requires k <= |s|
    ensures i == -1 || k <= i < |s|
    ensures 0 <= i ==> s[i] == c
    ensures forall m :: k <= m < (if i == -1 then |s| else i) ==> s[m] != c
    decreases |s| - k
  {
    if k == |s| then -1
    else if s[k] == c then k
    else IndexFrom(s, c, k + 1)
  }

  /** `s.lastIndexOf(c)` for a single character: -1 when absent. */
  function LastIndexOf(s: string, c: char): (i: int)
    ensures -1 <= i < |s|
    ensures i == -1 <==> c !in s
    ensures 0 <= i ==> s[i] == c && c !in s[i + 1..]
  {
    if |s| == 0 then -1
    else if s[|s| - 1] == c then |s| - 1
    else
      var init := s[..|s| - 1];
      var j := LastIndexOf(init, c);
      InitAndLast(s, if j < 0 then 0 else j + 1);
      j
  }

  /** A suffix of `s` is the suffix of its initial part and its last element. */
  lemma InitAndLast(s: string, j: nat)
    requires j < |s|
    ensures s == s[..|s| - 1] + [s[|s| - 1]]
    ensures s[j..] == s[..|s| - 1][j..] + [s[|s| - 1]]
  {
  }

  /** `s.split(c)` for a one-character separator. */
  function Split(s: string, c: char): (parts: seq<string>)
    ensures |parts| >= 1
    decreases |s|
  {
    var i := IndexOf(s, c);
    if i == -1 then [s] else [s[..i]] + Split(s[i + 1..], c)
  }

  /** No part of a split holds the separator. */
  lemma {:induction false} SplitPartsFree(s: string, c: char)
    ensures forall k :: 0 <= k < |Split(s, c)| ==> c !in Split(s, c)[k]
    decreases |s|
  {
    var i := IndexOf(s, c);
    if i != -1 {
      SplitAt(s, c, i);
      SplitPartsFree(s[i + 1..], c);
    }
  }

  /** `xs.join(sep)` */
  function Join(xs: seq<string>, sep: string): string
    decreases |xs|
  {
    if |xs| == 0 then ""
    else if |xs| == 1 then xs[0]
    else xs[0] + sep + Join(xs[1..], sep)
  }

  /** The characters that ECMAScript's `String.prototype.trim` removes: the
      WhiteSpace and LineTerminator code points of the language standard. */
  predicate IsJsWhitespace(c: char) {
    c == '\t' || c == '\n' || c == '\U{000B}' || c == '\U{000C}' || c == '\r' || c == ' '
    || c == '\U{00A0}' || c == '\U{1680}' || ('\U{2000}' <= c <= '\U{200A}')
    || c == '\U{2028}' || c == '\U{2029}' || c == '\U{202F}' || c == '\U{205F}'
    || c == '\U{3000}' || c == '\U{FEFF}'
  }

  function TrimStart(s: string): (r: string)
    ensures |r| <= |s| && r == s[|s| - |r|..]
    ensures forall k :: 0 <= k < |s| - |r| ==> IsJsWhitespace(s[k])
    ensures |r| > 0 ==> !IsJsWhitespace(r[0])
    decreases |s|
  {
    if |s| > 0 && IsJsWhitespace(s[0]) then TrimStart(s[1..]) else s
  }

  function TrimEnd(s: string): (r: string)
    ensures |r| <= |s| && r == s[..|r|]
    ensures forall k :: |r| <= k < |s| ==> IsJsWhitespace(s[k])
    ensures |r| > 0 ==> !IsJsWhitespace(r[|r| - 1])
    decreases |s|
  {
    if |s| > 0 && IsJsWhitespace(s[|s| - 1]) then TrimEnd(s[..|s| - 1]) else s
  }

  /** `s.trim()`: the longest infix of `s` that neither starts nor ends with
      whitespace, once the whitespace around it is taken off. */
  function Trim(s: string): (r: string)
    ensures |r| > 0 ==> !IsJsWhitespace(r[0]) && !IsJsWhitespace(r[|r| - 1])
    ensures Contains(s, r)
  {
    var t := TrimStart(s);
    var r := TrimEnd(t);
    var i := |s| - |t|;
    assert s[i..i + |r|] == r;
    ContainsAt(s, r, i);
    r
  }

  /** `s.replace(/x/g, y)` for one character `x` replaced by one character `y`. */
  function ReplaceChar(s: string, x: char, y: char): (r: string)
    ensures |r| == |s|
    ensures forall k :: 0 <= k < |s| ==> r[k] == if s[k] == x then y else s[k]
    ensures x != y ==> x !in r
  {
    seq(|s|, k requires 0 <= k < |s| => if s[k] == x then y else s[k])
  }

  lemma ReplaceCharAbsent(s: string, x: char, y: char)
    requires x !in s
    ensures ReplaceChar(s, x, y) == s
  {
  }

  /** The first index at which `p` occurs in `s`, or -1: `s.indexOf(p)`. */
  function IndexOfString(s: string, p: string): (i: int)
    ensures i == -1 || 0 <= i <= |s| - |p|
    ensures i == -1 <==> !Contains(s, p)
    ensures 0 <= i ==> s[i..i + |p|] == p
    ensures 0 <= i ==> forall k :: 0 <= k < i ==> !StartsWith(s[k..], p)
    decreases |s|
  {
    if StartsWith(s, p) then 0
    else if |s| == 0 then -1
    else
      var j := IndexOfString(s[1..], p);
      if j == -1 then -1
      else
        assert forall k :: 1 <= k <= j ==> s[k..] == s[1..][k - 1..];
        j + 1
  }

  /** Replaces the first occurrence of `p` in `s` by `q` (the effect of a
      non-global `replace` with a literal pattern). */
  function ReplaceFirst(s: string, p: string, q: string): (r: string)
    ensures !Contains(s, p) ==> r == s
    ensures Contains(s, p) ==>
      var i := IndexOfString(s, p);
      r == s[..i] + q + s[i + |p|..]
  {
    var i := IndexOfString(s, p);
    if i == -1 then s else s[..i] + q + s[i + |p|..]
  }

  // ---- Lemmas ----

  lemma {:induction false} ContainsAt(s: string, p: string, i: nat)
    requires i + |p| <= |s| && s[i..i + |p|] == p
    ensures Contains(s, p)
    decreases i
  {
    if i == 0 {
      assert s[..|p|] == p;
    } else {
      assert s[1..][i - 1..i - 1 + |p|] == s[i..i + |p|];
      ContainsAt(s[1..], p, i - 1);
    }
  }

  lemma IndexOfUnique(s: string, c: char, i: nat)
    requires i < |s| && s[i] == c && c !in s[..i]
    ensures IndexOf(s, c) == i
  {
  }

  /** Text after an occurrence does not move the first occurrence. */
  lemma IndexOfAppended(s: string, t: string, c: char)
    requires c in s
    ensures IndexOf(s + t, c) == IndexOf(s, c)
  {
    var i := IndexOf(s, c);
    assert (s + t)[..i] == s[..i];
    IndexOfUnique(s + t, c, i);
  }

  lemma ContainsMiddle(a: string, p: string, b: string)
    ensures Contains(a + p + b, p)
  {
    assert (a + p + b)[|a|..|a| + |p|] == p;
    ContainsAt(a + p + b, p, |a|);
  }

  /** Replacing an occurring pattern puts the replacement in its place. */
  lemma ReplaceFirstPuts(s: string, p: string, q: string)
    requires Contains(s, p)
    ensures var i := IndexOfString(s, p);
            && ReplaceFirst(s, p, q) == s[..i] + q + s[i + |p|..]
            && Contains(ReplaceFirst(s, p, q), q)
  {
    var i := IndexOfString(s, p);
    ContainsMiddle(s[..i], q, s[i + |p|..]);
  }

  /** Splitting at a separator occurrence splits the parts. */
  lemma SplitConcat(a: string, c: char, b: string)
    ensures Split(a + [c] + b, c) == Split(a, c) + Split(b, c)
  {
    var s := a + [c] + b;
    assert s[..|a|] == a;
    assert s[|a| + 1..] == b;
    SplitAtSep(s, c, |a|);
  }

  /** Any separator occurrence, not only the first, splits the parts. */
  lemma {:induction false} SplitAtSep(s: string, c: char, j: nat)
    requires j < |s| && s[j] == c
    ensures Split(s, c) == Split(s[..j], c) + Split(s[j + 1..], c)
    decreases j
  {
    var i := IndexOfAtMost(s, c, j);
    SplitAt(s, c, i);
    if i == j {
      SplitNoSep(s[..j], c);
    } else {
      var t := s[i + 1..];
      SplitAtSep(t, c, j - i - 1);
      SliceOfSuffix(s, i + 1, j);
      SplitPrefixAt(s, c, i, j);
      ConsAppend(s[..i], Split(s[i + 1..j], c), Split(s[j + 1..], c));
    }
  }

  /** An occurrence at `j` bounds the first occurrence. */
  lemma IndexOfAtMost(s: string, c: char, j: nat) returns (i: nat)
    requires j < |s| && s[j] == c
    ensures i <= j && IndexOf(s, c) == i
  {
    i := IndexOf(s, c);
  }

  /** A prefix reaching past the first separator is cut at that separator. */
  lemma SplitPrefixAt(s: string, c: char, i: nat, j: nat)
    requires i < j <= |s| && IndexOf(s, c) == i
    ensures Split(s[..j], c) == [s[..i]] + Split(s[i + 1..j], c)
  {
    var u := s[..j];
    assert u[..i] == s[..i];
    IndexOfUnique(u, c, i);
    SplitAt(u, c, i);
    assert u[i + 1..] == s[i + 1..j];
  }

  lemma SliceOfSuffix(s: string, i: nat, j: nat)
    requires i <= j < |s|
    ensures s[i..][..j - i] == s[i..j]
    ensures s[i..][j - i + 1..] == s[j + 1..]
  {
  }

  lemma ConsAppend<T>(x: T, p: seq<T>, q: seq<T>)
    ensures [x] + (p + q) == ([x] + p) + q
  {
  }

  /** `split` cuts at the first separator. */
  lemma SplitAt(s: string, c: char, i: nat)
    requires i < |s| && IndexOf(s, c) == i
    ensures Split(s, c) == [s[..i]] + Split(s[i + 1..], c)
  {
    SplitFirst(s, c);
  }

  lemma SplitFirst(s: string, c: char)
    requires c in s
    ensures Split(s, c) == [s[..IndexOf(s, c)]] + Split(s[IndexOf(s, c) + 1..], c)
  {
  }

  lemma SplitNoSep(s: string, c: char)
    requires c !in s
    ensures Split(s, c) == [s]
  {
  }

  /** Joining the parts of a split with the separator gives the string back. */
  lemma {:induction false} JoinSplit(s: string, c: char)
    ensures Join(Split(s, c), [c]) == s
    decreases |s|
  {
    var i := IndexOf(s, c);
    if i == -1 {
      SplitNoSep(s, c);
    } else {
      JoinSplit(s[i + 1..], c);
      var rest := Split(s[i + 1..], c);
      SplitAt(s, c, i);
      JoinCons(s[..i], rest, [c]);
      assert s == s[..i] + [c] + s[i + 1..];
    }
  }

  lemma JoinCons(x: string, rest: seq<string>, sep: string)
    requires |rest| > 0
    ensures Join([x] + rest, sep) == x + sep + Join(rest, sep)
  {
    assert ([x] + rest)[1..] == rest;
  }

  /** A Join splits at any interior element boundary. */
  lemma {:induction false} JoinAppend(xs: seq<string>, x: string, sep: string)
    requires |xs| > 0
    ensures Join(xs + [x], sep) == Join(xs, sep) + sep + x
    decreases |xs|
  {
    if |xs| == 1 {
      assert (xs + [x])[1..] == [x];
    } else {
      assert (xs + [x])[1..] == xs[1..] + [x];
      JoinAppend(xs[1..], x, sep);
    }
  }

  /** The element `xs[i]` of a join is preceded by the join of the elements
      before it, so every element appears in the joined text in order. */
  lemma {:induction false} JoinSplitAt(xs: seq<string>, i: nat, sep: string)
    requires 0 < i < |xs|
    ensures Join(xs, sep) == Join(xs[..i], sep) + sep + Join(xs[i..], sep)
    decreases i
  {
    if i == 1 {
      assert xs[..1] == [xs[0]];
      assert xs[1..] == xs[i..];
    } else {
      JoinSplitAt(xs[1..], i - 1, sep);
      assert xs[1..][..i - 1] == xs[..i][1..];
      assert xs[1..][i - 1..] == xs[i..];
    }
  }

  lemma {:induction false} ContainsExtend(pre: string, s: string, p: string)
    requires Contains(s, p)
    ensures Contains(pre + s, p)
    decreases |pre|
  {
    if |pre| > 0 {
      ContainsExtend(pre[1..], s, p);
      assert (pre + s)[1..] == pre[1..] + s;
    } else {
      assert pre + s == s;
    }
  }

  /** Every element of a join occurs in the joined text. */
  lemma {:induction false} JoinContainsElement(xs: seq<string>, i: nat, sep: string)
    requires i < |xs|
    ensures Contains(Join(xs, sep), xs[i])
    decreases i
  {
    if i == 0 {
      var rest := if |xs| == 1 then "" else sep + Join(xs[1..], sep);
      assert Join(xs, sep) == "" + xs[0] + rest;
      ContainsMiddle("", xs[0], rest);
    } else {
      JoinContainsElement(xs[1..], i - 1, sep);
      assert Join(xs, sep) == (xs[0] + sep) + Join(xs[1..], sep);
      ContainsExtend(xs[0] + sep, Join(xs[1..], sep), xs[i]);
    }
  }

  /** A string without whitespace at either end is its own trim. */
  lemma TrimNoEdges(s: string)
    requires |s| > 0 ==> !IsJsWhitespace(s[0]) && !IsJsWhitespace(s[|s| - 1])
    ensures Trim(s) == s
  {
    assert TrimStart(s) == s;
    assert TrimEnd(s) == s;
  }

  lemma TrimIdempotent(s: string)
    ensures Trim(Trim(s)) == Trim(s)
  {
    TrimNoEdges(Trim(s));
  }

  /** An occurrence of `p` in `s`. */
  lemma {:induction false} ContainsWitness(s: string, p: string) returns (i: nat)
    requires Contains(s, p)
    ensures i + |p| <= |s| && s[i..i + |p|] == p
    decreases |s|
  {
    if StartsWith(s, p) {
      i := 0;
    } else {
      var j := ContainsWitness(s[1..], p);
      assert s[1..][j..j + |p|] == s[j + 1..j + 1 + |p|];
      i := j + 1;
    }
  }

  lemma ContainsPrefix(a: string, b: string, p: string)
    requires Contains(a, p)
    ensures Contains(a + b, p)
  {
    var i := ContainsWitness(a, p);
    assert (a + b)[i..i + |p|] == a[i..i + |p|];
    ContainsAt(a + b, p, i);
  }
}
