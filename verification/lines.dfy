/**
 The history reader's post-processing: the text printed by the log command
 becomes one string per line, as Python's `str.splitlines()` does it.
 */
module Lines {
  import opened Text

  /** Index of the first line boundary, or the length when there is none. */
  function FirstBreak(s: string): (i: nat)
    ensures i <= |s|
  {
    if |s| == 0 || IsLineBreak(s[0]) then 0 else 1 + FirstBreak(s[1..])
  }

  /** Nothing before the index `FirstBreak` finds is a boundary, and a boundary sits at that index, if any. */
  lemma {:induction false} FirstBreakSpec(s: string)
    ensures NoLineBreak(s[..FirstBreak(s)])
    ensures FirstBreak(s) < |s| ==> IsLineBreak(s[FirstBreak(s)])
    decreases |s|
  {
    if |s| > 0 && !IsLineBreak(s[0]) {
      var m := FirstBreak(s[1..]);
      FirstBreakSpec(s[1..]);
      assert s[..m + 1] == [s[0]] + s[1..][..m];
      assert m < |s| - 1 ==> s[m + 1] == s[1..][m];
    }
  }

  /** The first boundary found after a line is the one that ends it. */
  lemma {:induction false} FirstBreakIs(s: string, i: nat)
    requires i <= |s| && NoLineBreak(s[..i])
    requires i < |s| ==> IsLineBreak(s[i])
    ensures FirstBreak(s) == i
    decreases i
  {
    if i > 0 {
      assert s[1..][..i - 1] == s[..i][1..];
      assert i - 1 < |s| - 1 ==> s[1..][i - 1] == s[i];
      FirstBreakIs(s[1..], i - 1);
    }
  }

  /** How many characters the boundary at `i` takes: two for "\r\n", one otherwise. */
  function BreakWidth(s: string, i: nat): (w: nat)
    requires i < |s|
    ensures 1 <= w <= |s| - i
  {
    if s[i] == '\r' && i + 1 < |s| && s[i + 1] == '\n' then 2 else 1
  }

  /**
   Python's `str.splitlines()`: the lines of `s` without their boundaries.
   Each line uses up at least one character, so a final boundary adds no
   empty line.
   */
  function SplitLines(s: string): (lines: seq<string>)
    ensures |lines| <= |s|
    ensures lines == [] <==> s == []
    decreases |s|
  {
    if |s| == 0 then []
    else
      var i := FirstBreak(s);
      if i == |s| then [s]
      else [s[..i]] + SplitLines(s[i + BreakWidth(s, i)..])
  }

  /** No line holds a boundary. */
  lemma {:induction false} SplitLinesNoBreak(s: string)
    ensures forall k | 0 <= k < |SplitLines(s)| :: NoLineBreak(SplitLines(s)[k])
    decreases |s|
  {
    if |s| > 0 {
      var i := FirstBreak(s);
      FirstBreakSpec(s);
      if i == |s| {
        assert s[..i] == s;
      } else {
        var rest := s[i + BreakWidth(s, i)..];
        SplitLinesNoBreak(rest);
        var lines := SplitLines(s);
        assert lines == [s[..i]] + SplitLines(rest);
        forall k | 0 <= k < |lines|
          ensures NoLineBreak(lines[k])
        {
          if k > 0 {
            assert lines[k] == SplitLines(rest)[k - 1];
          }
        }
      }
    }
  }

  /** A line boundary at `i` that is a single "\n" ends the first line. */
  lemma {:induction false} SplitAtBreak(s: string, i: nat)
    requires i < |s| && i == FirstBreak(s) && s[i] == '\n'
    ensures SplitLines(s) == [s[..i]] + SplitLines(s[i + 1..])
  {
    assert BreakWidth(s, i) == 1;
  }

  /** A non-empty string without boundaries is one line. */
  lemma {:induction false} SplitSingleLine(s: string)
    requires s != [] && NoLineBreak(s)
    ensures SplitLines(s) == [s]
  {
    assert s[..|s|] == s;
    FirstBreakIs(s, |s|);
  }

  /** A line followed by "\n" is split off as the first line. */
  lemma {:induction false} SplitFirstLine(x: string, tail: string)
    requires NoLineBreak(x)
    ensures SplitLines(x + "\n" + tail) == [x] + SplitLines(tail)
  {
    var s := x + "\n" + tail;
    assert s[..|x|] == x;
    assert s[|x|] == '\n';
    FirstBreakIs(s, |x|);
    assert BreakWidth(s, |x|) == 1;
    assert s[|x| + 1..] == tail;
  }

  /**
   `SplitFirstLine` with the lines of the remaining text already known as
   `a + b`. Kept apart so that `SplitTerminated` sees only this conclusion
   and not the unfolding of `SplitLines` at the line break, which is costly
   in the context of that induction.
   */
  lemma {:induction false} SplitFirstLineOnto(x: string, tail: string, a: seq<string>, b: seq<string>)
    requires NoLineBreak(x)
    requires SplitLines(tail) == a + b
    ensures SplitLines(x + "\n" + tail) == [x] + a + b
  {
    SplitFirstLine(x, tail);
  }

  /** Lines each printed with "\n" after them come back one by one, followed by whatever text comes next. */
  lemma {:induction false} SplitTerminated(xs: seq<string>, rest: string)
    requires forall k | 0 <= k < |xs| :: NoLineBreak(xs[k])
    ensures SplitLines(Terminated(xs) + rest) == xs + SplitLines(rest)
    decreases |xs|
  {
    if |xs| == 0 {
      assert Terminated(xs) + rest == rest;
    } else {
      var tail := Terminated(xs[1..]) + rest;
      SplitTerminated(xs[1..], rest);
      TerminatedCons(xs, rest);
      SplitFirstLineOnto(xs[0], tail, xs[1..], SplitLines(rest));
      assert [xs[0]] + xs[1..] == xs;
    }
  }

  /**
   Text in which every line, the last one included, ends in "\n" splits back
   into exactly those lines, with no empty line after the last. The history
   test's log output and the show command's output have this shape.
   */
  lemma {:induction false} SplitTerminatedLines(xs: seq<string>)
    requires forall k | 0 <= k < |xs| :: NoLineBreak(xs[k])
    ensures SplitLines(Terminated(xs)) == xs
  {
    SplitTerminated(xs, "");
    assert Terminated(xs) + "" == Terminated(xs);
  }

  /** Lines joined by "\n" come back, provided the last one, if any, is not empty. */
  lemma {:induction false} SplitJoin(xs: seq<string>)
    requires xs == [] || xs[|xs| - 1] != []
    requires forall k | 0 <= k < |xs| :: NoLineBreak(xs[k])
    ensures SplitLines(Join("\n", xs)) == xs
  {
    if xs == [] {
      assert Join("\n", xs) == [];
    } else {
      var last := xs[|xs| - 1];
      JoinIsTerminatedPrefix(xs);
      SplitTerminated(xs[..|xs| - 1], last);
      SplitSingleLine(last);
      assert xs == xs[..|xs| - 1] + [last];
    }
  }

  /** A boundary after the last line adds no empty line. */
  lemma {:induction false} TrailingBreakIgnored(s: string, b: char)
    requires s != [] && !IsLineBreak(s[|s| - 1])
    requires IsLineBreak(b)
    ensures SplitLines(s + [b]) == SplitLines(s)
    decreases |s|
  {
    var i := FirstBreak(s);
    FirstBreakSpec(s);
    if i == |s| {
      TrailingBreakOneLine(s, b);
    } else {
      var rest := TrailingBreakStep(s, b);
      TrailingBreakIgnored(rest, b);
    }
  }

  /** The base case of the above: one line, then a boundary. */
  lemma {:induction false} TrailingBreakOneLine(s: string, b: char)
    requires s != [] && NoLineBreak(s) && IsLineBreak(b)
    ensures SplitLines(s + [b]) == SplitLines(s)
  {
    var t := s + [b];
    assert t[..|s|] == s;
    FirstBreakIs(t, |s|);
    assert BreakWidth(t, |s|) == 1;
    assert t[|s| + 1..] == [];
    SplitSingleLine(s);
  }

  /**
   The step of the above: a boundary inside `s` splits off the same first line
   with or without the final boundary, and leaves a non-empty remainder that
   still does not end in a boundary.
   */
  lemma {:induction false} TrailingBreakStep(s: string, b: char) returns (rest: string)
    requires s != [] && !IsLineBreak(s[|s| - 1])
    requires FirstBreak(s) < |s| && NoLineBreak(s[..FirstBreak(s)]) && IsLineBreak(s[FirstBreak(s)])
    ensures |rest| < |s| && rest != [] && !IsLineBreak(rest[|rest| - 1])
    ensures SplitLines(s) == [s[..FirstBreak(s)]] + SplitLines(rest)
    ensures SplitLines(s + [b]) == [s[..FirstBreak(s)]] + SplitLines(rest + [b])
  {
    var i := FirstBreak(s);
    var w := BreakWidth(s, i);
    SameBreakWithTrailing(s, b);
    rest := s[i + w..];
    SliceOfAppend(s, b, i, i + w);
    SplitAtFirstBreak(s);
    SplitAtFirstBreak(s + [b]);
  }

  /** A character appended after the text does not move its first boundary, which keeps its width and is not the last character. */
  lemma {:induction false} SameBreakWithTrailing(s: string, b: char)
    requires s != [] && !IsLineBreak(s[|s| - 1])
    requires FirstBreak(s) < |s| && NoLineBreak(s[..FirstBreak(s)]) && IsLineBreak(s[FirstBreak(s)])
    ensures FirstBreak(s) + BreakWidth(s, FirstBreak(s)) < |s|
    ensures FirstBreak(s + [b]) == FirstBreak(s)
    ensures BreakWidth(s + [b], FirstBreak(s)) == BreakWidth(s, FirstBreak(s))
  {
    var i := FirstBreak(s);
    var t := s + [b];
    assert t[..i] == s[..i];
    assert t[i] == s[i];
    FirstBreakIs(t, i);
    assert t[i + 1] == s[i + 1];
  }

  /** Slicing text with one more character at its end. */
  lemma {:induction false} SliceOfAppend(s: string, b: char, i: nat, j: nat)
    requires i <= j < |s|
    ensures (s + [b])[..i] == s[..i]
    ensures (s + [b])[j..] == s[j..] + [b]
    ensures s[j..] != [] && s[j..][|s[j..]| - 1] == s[|s| - 1]
  {
  }

  /** Text with a boundary splits into the line before it and the lines after it. */
  lemma {:induction false} SplitAtFirstBreak(s: string)
    requires FirstBreak(s) < |s|
    ensures SplitLines(s) == [s[..FirstBreak(s)]] + SplitLines(s[FirstBreak(s) + BreakWidth(s, FirstBreak(s))..])
  {
  }

  /**
   A line ends at its first boundary, whichever it is: "\r\n" taken as one
   boundary, or any single boundary character, where a "\r" counts alone only
   when no "\n" follows it. The line is split off and the rest split on.
   */
  lemma {:induction false} SplitAtSeparator(x: string, sep: string, tail: string)
    requires NoLineBreak(x)
    requires sep == "\r\n" || (|sep| == 1 && IsLineBreak(sep[0]) && !(sep[0] == '\r' && tail != [] && tail[0] == '\n'))
    ensures SplitLines(x + sep + tail) == [x] + SplitLines(tail)
  {
    var s := x + sep + tail;
    assert s[..|x|] == x;
    assert s[|x|] == sep[0];
    FirstBreakIs(s, |x|);
    if sep == "\r\n" {
      assert s[|x| + 1] == '\n';
    } else if |tail| > 0 {
      assert s[|x| + 1] == tail[0];
    }
    assert BreakWidth(s, |x|) == |sep|;
    assert s[|x| + |sep|..] == tail;
    SplitAtFirstBreak(s);
  }

  /**
   The newline translation of a pipe read with `text=True`: "\r\n" and a
   lone "\r" both become "\n"; every other character is kept.
   */
  function TranslateNewlines(s: string): (t: string)
    ensures |t| <= |s|
    decreases |s|
  {
    if |s| == 0 then []
    else if s[0] == '\r' && |s| > 1 && s[1] == '\n' then "\n" + TranslateNewlines(s[2..])
    else if s[0] == '\r' then "\n" + TranslateNewlines(s[1..])
    else [s[0]] + TranslateNewlines(s[1..])
  }

  /** Text without boundaries holds no "\r", so translation leaves it in place in front of whatever follows. */
  lemma {:induction false} TranslateKeepsLine(x: string, rest: string)
    requires NoLineBreak(x)
    ensures TranslateNewlines(x + rest) == x + TranslateNewlines(rest)
    decreases |x|
  {
    if |x| > 0 {
      var s := x + rest;
      assert x[0] != '\r' by {
        assert !IsLineBreak(x[0]);
      }
      assert s[0] == x[0] && s[1..] == x[1..] + rest;
      assert TranslateNewlines(s) == [x[0]] + TranslateNewlines(x[1..] + rest);
      assert NoLineBreak(x[1..]) by {
        assert forall k | 0 <= k < |x| - 1 :: x[1..][k] == x[k + 1];
      }
      TranslateKeepsLine(x[1..], rest);
      assert [x[0]] + (x[1..] + TranslateNewlines(rest)) == x + TranslateNewlines(rest);
    } else {
      assert x + rest == rest;
    }
  }

  /** The one character a boundary becomes once newlines are translated: "\n" for "\r\n" and "\r", itself otherwise. */
  function TranslatedBreak(c: char): string {
    if c == '\r' then "\n" else [c]
  }

  /** Translating text that has a boundary: the first line is kept, its boundary becomes one character, and the rest is translated. */
  lemma {:induction false} TranslateAtBreak(s: string)
    requires FirstBreak(s) < |s|
    ensures var i := FirstBreak(s);
      TranslateNewlines(s) == s[..i] + TranslatedBreak(s[i]) + TranslateNewlines(s[i + BreakWidth(s, i)..])
  {
    var i := FirstBreak(s);
    FirstBreakSpec(s);
    var w := BreakWidth(s, i);
    var x, u, tail := s[..i], s[i..], s[i + w..];
    assert s == x + u;
    TranslateKeepsLine(x, u);
    assert u[0] == s[i];
    if w == 2 {
      assert u[1] == '\n' && u[2..] == tail;
    } else {
      assert u[1..] == tail;
    }
  }

  /**
   Translating newlines first changes no line: `splitlines()` already takes
   "\r\n", "\r" and "\n" each as one boundary.
   */
  lemma {:induction false} SplitLinesIgnoresTranslation(s: string)
    ensures SplitLines(TranslateNewlines(s)) == SplitLines(s)
    decreases |s|
  {
    var i := FirstBreak(s);
    FirstBreakSpec(s);
    if i == |s| {
      assert s[..i] == s;
      TranslateKeepsLine(s, []);
      assert s + [] == s;
    } else {
      var tail := s[i + BreakWidth(s, i)..];
      SplitAtFirstBreak(s);
      TranslateAtBreak(s);
      SplitLinesIgnoresTranslation(tail);
      SplitAtSeparator(s[..i], TranslatedBreak(s[i]), TranslateNewlines(tail));
    }
  }

  /** Text whose only boundaries are "\n" and that does not end in one is the "\n"-join of its lines. */
  lemma {:induction false} JoinSplitLines(s: string)
    requires forall k | 0 <= k < |s| :: IsLineBreak(s[k]) ==> s[k] == '\n'
    requires s == [] || s[|s| - 1] != '\n'
    ensures Join("\n", SplitLines(s)) == s
    decreases |s|
  {
    if s != [] {
      var i := FirstBreak(s);
      FirstBreakSpec(s);
      if i < |s| {
        var rest := s[i + 1..];
        assert forall k | 0 <= k < |rest| :: rest[k] == s[i + 1 + k];
        JoinSplitLines(rest);
        JoinSplitFirstLine(s, i);
      } else {
        assert s[..i] == s;
      }
    }
  }

  /** The step of the above: a first "\n" splits off a line, and the rest joins back on after it. */
  lemma {:induction false} JoinSplitFirstLine(s: string, i: nat)
    requires i < |s| && i == FirstBreak(s) && s[i] == '\n' && s[|s| - 1] != '\n'
    requires Join("\n", SplitLines(s[i + 1..])) == s[i + 1..]
    ensures Join("\n", SplitLines(s)) == s
  {
    var rest := s[i + 1..];
    var line := s[..i];
    var after := SplitLines(rest);
    SplitAtBreak(s, i);
    JoinCons(line, after);
    calc {
      Join("\n", SplitLines(s));
      Join("\n", [line] + after);
      line + "\n" + Join("\n", after);
      line + "\n" + rest;
      { AroundBreak(s, i); }
      s;
    }
  }

  /** Text is the part before a "\n", the "\n", and the part after it. */
  lemma {:induction false} AroundBreak(s: string, i: nat)
    requires i < |s| && s[i] == '\n'
    ensures s == s[..i] + "\n" + s[i + 1..]
  {
    assert s[i..i + 1] == "\n";
    assert s == s[..i] + s[i..i + 1] + s[i + 1..];
  }
}
