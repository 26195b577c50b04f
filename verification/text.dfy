/**
 The character classes and string helpers behind Python's `str.strip()`,
 `str.split()`, `str.splitlines()` and `str.join()`, on strings of Unicode
 scalar values.
 */
module Text {

  /** Python's `str.isspace()`: the characters `strip()` and `split()` treat as whitespace. */
  predicate IsWhitespace(c: char) {
    var n := c as int;
    || 0x09 <= n <= 0x0D
    || 0x1C <= n <= 0x20
    || n == 0x85 || n == 0xA0 || n == 0x1680
    || 0x2000 <= n <= 0x200A
    || n == 0x2028 || n == 0x2029 || n == 0x202F || n == 0x205F || n == 0x3000
  }

  /** The line boundaries of Python's `str.splitlines()`; "\r\n" counts as one boundary. */
  predicate IsLineBreak(c: char) {
    var n := c as int;
    || 0x0A <= n <= 0x0D
    || 0x1C <= n <= 0x1E
    || n == 0x85 || n == 0x2028 || n == 0x2029
  }

  predicate IsBlank(s: string) {
    forall k | 0 <= k < |s| :: IsWhitespace(s[k])
  }

  predicate HasNoWhitespace(s: string) {
    forall k | 0 <= k < |s| :: !IsWhitespace(s[k])
  }

  predicate NoLineBreak(s: string) {
    forall k | 0 <= k < |s| :: !IsLineBreak(s[k])
  }

  /** Every line boundary is whitespace, so a string without whitespace has no line boundary. */
  lemma {:induction false} NoWhitespaceNoLineBreak(s: string)
    requires HasNoWhitespace(s)
    ensures NoLineBreak(s)
  {
  }

  /** Whitespace followed by whitespace is whitespace. */
  lemma {:induction false} BlankConcat(a: string, b: string)
    requires IsBlank(a) && IsBlank(b)
    ensures IsBlank(a + b)
  {
    forall k | 0 <= k < |a + b|
      ensures IsWhitespace((a + b)[k])
    {
      if k >= |a| {
        assert (a + b)[k] == b[k - |a|];
      }
    }
  }

  /** Length of the longest all-whitespace prefix. */
  function LeadingWhitespace(s: string): (n: nat)
    ensures n <= |s|
  {
    if |s| == 0 || !IsWhitespace(s[0]) then 0 else 1 + LeadingWhitespace(s[1..])
  }

  /** Length of the longest all-whitespace suffix. */
  function TrailingWhitespace(s: string): (n: nat)
    ensures n <= |s|
  {
    if |s| == 0 || !IsWhitespace(s[|s| - 1]) then 0 else 1 + TrailingWhitespace(s[..|s| - 1])
  }

  /** Length of the longest prefix free of whitespace: the first token when `s` starts with one. */
  function LeadingToken(s: string): (n: nat)
    ensures n <= |s|
  {
    if |s| == 0 || IsWhitespace(s[0]) then 0 else 1 + LeadingToken(s[1..])
  }

  /** The prefix `LeadingWhitespace` measures is blank and is followed by a non-whitespace character, if any. */
  lemma {:induction false} LeadingWhitespaceSpec(s: string)
    ensures IsBlank(s[..LeadingWhitespace(s)])
    ensures LeadingWhitespace(s) < |s| ==> !IsWhitespace(s[LeadingWhitespace(s)])
    decreases |s|
  {
    if |s| > 0 && IsWhitespace(s[0]) {
      var m := LeadingWhitespace(s[1..]);
      LeadingWhitespaceSpec(s[1..]);
      assert s[..m + 1] == [s[0]] + s[1..][..m];
      assert m < |s| - 1 ==> s[m + 1] == s[1..][m];
    }
  }

  lemma {:induction false} TrailingWhitespaceSpec(s: string)
    ensures IsBlank(s[|s| - TrailingWhitespace(s)..])
    ensures TrailingWhitespace(s) < |s| ==> !IsWhitespace(s[|s| - TrailingWhitespace(s) - 1])
    decreases |s|
  {
    if |s| > 0 && IsWhitespace(s[|s| - 1]) {
      var init := s[..|s| - 1];
      var m := TrailingWhitespace(init);
      TrailingWhitespaceSpec(init);
      assert s[|s| - (m + 1)..] == init[|init| - m..] + [s[|s| - 1]];
      assert m < |init| ==> s[|s| - (m + 1) - 1] == init[|init| - m - 1];
    }
  }

  lemma {:induction false} LeadingTokenSpec(s: string)
    ensures HasNoWhitespace(s[..LeadingToken(s)])
    ensures LeadingToken(s) < |s| ==> IsWhitespace(s[LeadingToken(s)])
    decreases |s|
  {
    if |s| > 0 && !IsWhitespace(s[0]) {
      var m := LeadingToken(s[1..]);
      LeadingTokenSpec(s[1..]);
      assert s[..m + 1] == [s[0]] + s[1..][..m];
      assert m < |s| - 1 ==> s[m + 1] == s[1..][m];
    }
  }

  /** The whitespace prefix is the one ending at the first non-whitespace character. */
  lemma {:induction false} LeadingWhitespaceIs(s: string, n: nat)
    requires n <= |s| && IsBlank(s[..n])
    requires n < |s| ==> !IsWhitespace(s[n])
    ensures LeadingWhitespace(s) == n
    decreases n
  {
    if n > 0 {
      assert s[1..][..n - 1] == s[..n][1..];
      assert n - 1 < |s| - 1 ==> s[1..][n - 1] == s[n];
      LeadingWhitespaceIs(s[1..], n - 1);
    }
  }

  lemma {:induction false} TrailingWhitespaceIs(s: string, n: nat)
    requires n <= |s| && IsBlank(s[|s| - n..])
    requires n < |s| ==> !IsWhitespace(s[|s| - n - 1])
    ensures TrailingWhitespace(s) == n
    decreases n
  {
    if n > 0 {
      var init := s[..|s| - 1];
      assert init[|init| - (n - 1)..] == s[|s| - n..|s| - 1];
      assert n - 1 < |init| ==> init[|init| - (n - 1) - 1] == s[|s| - n - 1];
      assert s[|s| - 1] == s[|s| - n..][n - 1];
      TrailingWhitespaceIs(init, n - 1);
    }
  }

  lemma {:induction false} LeadingTokenIs(s: string, n: nat)
    requires n <= |s| && HasNoWhitespace(s[..n])
    requires n < |s| ==> IsWhitespace(s[n])
    ensures LeadingToken(s) == n
    decreases n
  {
    if n > 0 {
      assert s[1..][..n - 1] == s[..n][1..];
      assert n - 1 < |s| - 1 ==> s[1..][n - 1] == s[n];
      LeadingTokenIs(s[1..], n - 1);
    }
  }

  /** Python's `str.strip()` with no argument: drop leading and trailing whitespace. */
  function Trim(s: string): (r: string)
    ensures |r| <= |s|
  {
    var t := s[LeadingWhitespace(s)..];
    t[..|t| - TrailingWhitespace(t)]
  }

  /**
   `strip()` gives the empty string exactly for blank input, and otherwise a
   string that starts and ends with a non-whitespace character.
   */
  lemma {:induction false} TrimSpec(s: string)
    ensures Trim(s) == [] <==> IsBlank(s)
    ensures Trim(s) != [] ==> !IsWhitespace(Trim(s)[0]) && !IsWhitespace(Trim(s)[|Trim(s)| - 1])
  {
    var i := LeadingWhitespace(s);
    var t := s[i..];
    var j := TrailingWhitespace(t);
    LeadingWhitespaceSpec(s);
    TrailingWhitespaceSpec(t);
    var r := t[..|t| - j];
    assert r == Trim(s);
    if r == [] {
      assert IsBlank(t) by {
        assert t == t[|t| - j..];
      }
      assert s == s[..i] + t;
      BlankConcat(s[..i], t);
    } else {
      assert r[0] == t[0] == s[i];
      assert r[|r| - 1] == t[|t| - j - 1];
      assert !IsBlank(s) by {
        assert !IsWhitespace(s[i]);
      }
    }
  }

  /** The characters `strip()` removes are all whitespace, and what it keeps is a contiguous run of the input. */
  lemma {:induction false} TrimIsInfix(s: string) returns (i: nat)
    ensures i + |Trim(s)| <= |s|
    ensures Trim(s) == s[i..i + |Trim(s)|]
    ensures IsBlank(s[..i]) && IsBlank(s[i + |Trim(s)|..])
  {
    i := LeadingWhitespace(s);
    var t := s[i..];
    var j := TrailingWhitespace(t);
    LeadingWhitespaceSpec(s);
    TrailingWhitespaceSpec(t);
    assert Trim(s) == t[..|t| - j];
    assert s[i + |Trim(s)|..] == t[|t| - j..];
  }

  /** Padding a string that has no whitespace at its ends with whitespace and stripping it gives it back. */
  lemma {:induction false} TrimOfPadded(w1: string, t: string, w2: string)
    requires IsBlank(w1) && IsBlank(w2)
    requires t != [] ==> !IsWhitespace(t[0]) && !IsWhitespace(t[|t| - 1])
    ensures Trim(w1 + t + w2) == t
  {
    var s := w1 + t + w2;
    if t == [] {
      assert s == w1 + w2;
      BlankConcat(w1, w2);
      TrimSpec(s);
    } else {
      assert s[..|w1|] == w1;
      LeadingWhitespaceIs(s, |w1|);
      var u := s[|w1|..];
      assert u == t + w2;
      assert u[|u| - |w2|..] == w2;
      TrailingWhitespaceIs(u, |w2|);
      assert u[..|u| - |w2|] == t;
    }
  }

  /** Stripping twice strips nothing more. */
  lemma {:induction false} TrimIdempotent(s: string)
    ensures Trim(Trim(s)) == Trim(s)
  {
    var t := Trim(s);
    TrimSpec(s);
    assert t == [] + t + [];
    TrimOfPadded([], t, []);
  }

  /** Stripping keeps every character that is not a line boundary free of line boundaries. */
  lemma {:induction false} TrimNoLineBreak(s: string)
    requires NoLineBreak(s)
    ensures NoLineBreak(Trim(s))
  {
    var i := TrimIsInfix(s);
    var r := Trim(s);
    assert forall k | 0 <= k < |r| :: r[k] == s[i + k];
  }

  /** Python's `sep.join(xs)`. */
  function Join(sep: string, xs: seq<string>): string
  {
    if |xs| == 0 then ""
    else if |xs| == 1 then xs[0]
    else xs[0] + sep + Join(sep, xs[1..])
  }

  /** Every element followed by "\n": the text a tool prints one line at a time. */
  function Terminated(xs: seq<string>): string
  {
    if |xs| == 0 then "" else xs[0] + "\n" + Terminated(xs[1..])
  }

  /** Joining a head onto a non-empty list puts one separator between them. */
  lemma {:induction false} JoinCons(x: string, xs: seq<string>)
    requires |xs| > 0
    ensures Join("\n", [x] + xs) == x + "\n" + Join("\n", xs)
  {
    assert ([x] + xs)[1..] == xs;
  }

  /** Terminating a non-empty list is terminating its head, then the rest. */
  lemma {:induction false} TerminatedCons(xs: seq<string>, rest: string)
    requires |xs| > 0
    ensures Terminated(xs) + rest == xs[0] + "\n" + (Terminated(xs[1..]) + rest)
  {
  }

  /** Joining with "\n" is terminating every element but the last. */
  lemma {:induction false} JoinIsTerminatedPrefix(xs: seq<string>)
    requires |xs| > 0
    ensures Join("\n", xs) == Terminated(xs[..|xs| - 1]) + xs[|xs| - 1]
    decreases |xs|
  {
    if |xs| > 1 {
      JoinIsTerminatedPrefix(xs[1..]);
      assert xs[1..][..|xs[1..]| - 1] == xs[..|xs| - 1][1..];
    }
  }
}
