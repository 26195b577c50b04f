/**
 The change-set resolver's post-processing: the lines the show command prints
 for one commit are stripped, and the blank ones are dropped, in order.
 */
module ChangeSet {
  import opened Text
  import opened Lines

  /** A file entry as the resolver hands it on: not empty, and no whitespace at either end. */
  predicate IsCleanEntry(s: string) {
    s != [] && !IsWhitespace(s[0]) && !IsWhitespace(s[|s| - 1])
  }

  /** Clean entries are exactly the non-empty strings that `strip()` leaves alone. */
  lemma {:induction false} CleanEntryIsStripped(s: string)
    ensures IsCleanEntry(s) <==> s != [] && Trim(s) == s
  {
    if IsCleanEntry(s) {
      assert s == [] + s + [];
      TrimOfPadded([], s, []);
    } else if s != [] {
      TrimSpec(s);
    }
  }

  /** What one line contributes: its stripped form, or nothing when it is blank. */
  function Kept(line: string): seq<string>
  {
    var t := Trim(line);
    if t == [] then [] else [t]
  }

  /**
   `[line.strip() for line in lines if line.strip()]`: every line that is not
   blank, stripped, in the order the lines came.
   */
  function Clean(lines: seq<string>): (files: seq<string>)
    ensures |files| <= |lines|
  {
    if |lines| == 0 then [] else Kept(lines[0]) + Clean(lines[1..])
  }

  /** Every entry of a cleaned list is clean: not empty, with nothing left to strip. */
  lemma {:induction false} CleanEntries(lines: seq<string>)
    ensures forall k | 0 <= k < |Clean(lines)| :: IsCleanEntry(Clean(lines)[k])
    decreases |lines|
  {
    if |lines| > 0 {
      CleanEntries(lines[1..]);
      TrimSpec(lines[0]);
      var files := Clean(lines);
      var kept := Kept(lines[0]);
      assert files == kept + Clean(lines[1..]);
      forall k | 0 <= k < |files|
        ensures IsCleanEntry(files[k])
      {
        if k >= |kept| {
          assert files[k] == Clean(lines[1..])[k - |kept|];
        }
      }
    }
  }

  /** The files of one commit, from the text the show command printed for it. */
  function CommitFiles(stdout: string): (files: seq<string>)
    ensures forall k | 0 <= k < |files| :: IsCleanEntry(files[k]) && NoLineBreak(files[k])
  {
    var lines := SplitLines(stdout);
    SplitLinesNoBreak(stdout);
    CleanEntries(lines);
    CleanNoLineBreak(lines);
    Clean(lines)
  }

  /** Cleaning keeps lines free of line boundaries. */
  lemma {:induction false} CleanNoLineBreak(lines: seq<string>)
    requires forall k | 0 <= k < |lines| :: NoLineBreak(lines[k])
    ensures forall k | 0 <= k < |Clean(lines)| :: NoLineBreak(Clean(lines)[k])
    decreases |lines|
  {
    if |lines| > 0 {
      TrimNoLineBreak(lines[0]);
      CleanNoLineBreak(lines[1..]);
      var files := Clean(lines);
      var kept := Kept(lines[0]);
      assert files == kept + Clean(lines[1..]);
      forall k | 0 <= k < |files|
        ensures NoLineBreak(files[k])
      {
        if k >= |kept| {
          assert files[k] == Clean(lines[1..])[k - |kept|];
        }
      }
    }
  }

  /** Cleaning works line by line: the cleaned halves of a list make up the cleaned list. */
  lemma {:induction false} CleanAppend(a: seq<string>, b: seq<string>)
    ensures Clean(a + b) == Clean(a) + Clean(b)
    decreases |a|
  {
    if |a| == 0 {
      assert a + b == b;
    } else {
      CleanAppend(a[1..], b);
      CleanFirstOfAppend(a, b);
      assert Kept(a[0]) + (Clean(a[1..]) + Clean(b)) == Kept(a[0]) + Clean(a[1..]) + Clean(b);
    }
  }

  /** The first line of `a` contributes its kept entry in front of what the rest of `a + b` contributes. */
  lemma {:induction false} CleanFirstOfAppend(a: seq<string>, b: seq<string>)
    requires |a| > 0
    ensures Clean(a + b) == Kept(a[0]) + Clean(a[1..] + b)
  {
    assert (a + b)[0] == a[0] && (a + b)[1..] == a[1..] + b;
  }

  /** One line contributes what `Kept` says. */
  lemma {:induction false} CleanSingle(line: string)
    ensures Clean([line]) == Kept(line)
  {
    assert [line][1..] == [];
  }

  /**
   Order is kept: a non-blank line at index `i` lands at the position given by
   the number of entries cleaned from the lines before it, and every later
   non-blank line lands strictly after it.
   */
  lemma {:induction false} CleanPosition(lines: seq<string>, i: nat)
    requires i < |lines| && !IsBlank(lines[i])
    ensures |Clean(lines[..i])| < |Clean(lines)|
    ensures Clean(lines)[|Clean(lines[..i])|] == Trim(lines[i])
    ensures |Clean(lines[..i])| < |Clean(lines[..i + 1])|
  {
    assert lines == lines[..i] + ([lines[i]] + lines[i + 1..]);
    assert lines[..i + 1] == lines[..i] + [lines[i]];
    CleanAppend(lines[..i], [lines[i]] + lines[i + 1..]);
    CleanAppend([lines[i]], lines[i + 1..]);
    CleanAppend(lines[..i], [lines[i]]);
    CleanSingle(lines[i]);
    TrimSpec(lines[i]);
  }

  /** An entry is in the cleaned list exactly when some non-blank line strips to it. */
  lemma {:induction false} CleanMembership(lines: seq<string>, x: string)
    ensures x in Clean(lines) <==> exists k | 0 <= k < |lines| :: !IsBlank(lines[k]) && Trim(lines[k]) == x
    decreases |lines|
  {
    if |lines| > 0 {
      CleanMembership(lines[1..], x);
      TrimSpec(lines[0]);
      if exists k | 0 <= k < |lines[1..]| :: !IsBlank(lines[1..][k]) && Trim(lines[1..][k]) == x {
        var k :| 0 <= k < |lines[1..]| && !IsBlank(lines[1..][k]) && Trim(lines[1..][k]) == x;
        assert lines[k + 1] == lines[1..][k];
      }
      if exists k | 0 <= k < |lines| :: !IsBlank(lines[k]) && Trim(lines[k]) == x {
        var k :| 0 <= k < |lines| && !IsBlank(lines[k]) && Trim(lines[k]) == x;
        TrimSpec(lines[k]);
        if k > 0 {
          assert lines[1..][k - 1] == lines[k];
        }
      }
    }
  }

  /** Cleaning leaves a list alone exactly when every entry is already clean. */
  lemma {:induction false} CleanIdentity(lines: seq<string>)
    ensures Clean(lines) == lines <==> forall k | 0 <= k < |lines| :: IsCleanEntry(lines[k])
    decreases |lines|
  {
    CleanEntries(lines);
    if |lines| > 0 {
      CleanIdentity(lines[1..]);
      CleanEntryIsStripped(lines[0]);
      if forall k | 0 <= k < |lines| :: IsCleanEntry(lines[k]) {
        assert IsCleanEntry(lines[0]);
        assert forall k | 0 <= k < |lines[1..]| :: IsCleanEntry(lines[1..][k]) by {
          forall k | 0 <= k < |lines[1..]|
            ensures IsCleanEntry(lines[1..][k])
          {
            assert lines[1..][k] == lines[k + 1];
          }
        }
        assert lines == [lines[0]] + lines[1..];
      }
    }
  }

  /** Cleaning twice is cleaning once. */
  lemma {:induction false} CleanIdempotent(lines: seq<string>)
    ensures Clean(Clean(lines)) == Clean(lines)
  {
    CleanEntries(lines);
    CleanIdentity(Clean(lines));
  }
}
