/**
 One line of the log: `<hash> <message>`, read by splitting on whitespace at
 most once and unpacking the result into two names.
 */
module CommitLine {
  import opened Wrappers
  import opened Text

  /** A commit as the graph builder sees it. */
  datatype CommitRecord = CommitRecord(hash: string, message: string)

  /**
   What a successful parse yields: a hash that is one whitespace-free token,
   and a message that starts with a non-whitespace character.
   */
  predicate WellFormed(c: CommitRecord) {
    && c.hash != [] && HasNoWhitespace(c.hash)
    && c.message != [] && !IsWhitespace(c.message[0])
  }

  /** Python's `s.split()`: the maximal whitespace-free runs of `s`, in order. */
  function Tokens(s: string): (ts: seq<string>)
    ensures |ts| <= |s|
    decreases |s|
  {
    var t := s[LeadingWhitespace(s)..];
    if |t| == 0 then []
    else
      var n := LeadingToken(t);
      LeadingWhitespaceSpec(s);
      LeadingTokenSpec(t);
      assert n > 0 by {
        assert t[0] == s[LeadingWhitespace(s)];
      }
      [t[..n]] + Tokens(t[n..])
  }

  /** Every token is non-empty and free of whitespace. */
  lemma {:induction false} TokensAreWords(s: string)
    ensures forall k | 0 <= k < |Tokens(s)| :: Tokens(s)[k] != [] && HasNoWhitespace(Tokens(s)[k])
    decreases |s|
  {
    var ts := Tokens(s);
    if ts != [] {
      var word, rest := TokensStep(s);
      TokensAreWords(rest);
      forall k | 0 <= k < |ts|
        ensures ts[k] != [] && HasNoWhitespace(ts[k])
      {
        if k > 0 {
          assert ts[k] == Tokens(rest)[k - 1];
        }
      }
    }
  }

  /** One step of `split()`: the first token is a word, and the others are the tokens of what follows it. */
  lemma {:induction false} TokensStep(s: string) returns (word: string, rest: string)
    requires Tokens(s) != []
    ensures |rest| < |s|
    ensures Tokens(s) == [word] + Tokens(rest)
    ensures word != [] && HasNoWhitespace(word)
  {
    var i := LeadingWhitespace(s);
    var t := s[i..];
    var n := LeadingToken(t);
    word, rest := t[..n], t[n..];
    LeadingWhitespaceSpec(s);
    LeadingTokenSpec(t);
    assert t[0] == s[i];
  }

  /**
   Python's `s.split(maxsplit=1)`: no part for a blank line, one part for a
   single token, otherwise the first token and the rest of the line after the
   whitespace that follows it, kept verbatim.
   */
  function SplitOnce(s: string): (parts: seq<string>)
    ensures |parts| <= 2
  {
    var t := s[LeadingWhitespace(s)..];
    if |t| == 0 then []
    else
      var n := LeadingToken(t);
      var rest := t[n..];
      var m := rest[LeadingWhitespace(rest)..];
      if |m| == 0 then [t[..n]] else [t[..n], m]
  }

  /**
   The parts of `split(maxsplit=1)`: the first is one whitespace-free token,
   and the second, when there is one, starts with a non-whitespace character.
   There is no part exactly when the line is blank.
   */
  lemma {:induction false} SplitOnceParts(s: string)
    ensures SplitOnce(s) == [] <==> IsBlank(s)
    ensures |SplitOnce(s)| >= 1 ==> SplitOnce(s)[0] != [] && HasNoWhitespace(SplitOnce(s)[0])
    ensures |SplitOnce(s)| == 2 ==> SplitOnce(s)[1] != [] && !IsWhitespace(SplitOnce(s)[1][0])
  {
    var i := LeadingWhitespace(s);
    var t := s[i..];
    LeadingWhitespaceSpec(s);
    if |t| == 0 {
      assert s[..i] == s;
    } else {
      assert t[0] == s[i];
      var n := LeadingToken(t);
      LeadingTokenSpec(t);
      var rest := t[n..];
      LeadingWhitespaceSpec(rest);
    }
  }

  /**
   `commit_hash, commit_msg = parts`: two parts bind, and fewer raise; the
   error carries how many values there were.
   */
  function Unpack(parts: seq<string>): Result<CommitRecord, nat> {
    if |parts| == 2 then Success(CommitRecord(parts[0], parts[1])) else Failure(|parts|)
  }

  /** `commit_hash, commit_msg = commit.split(maxsplit=1)`: fails on a blank line or a lone token. */
  function ParseLine(line: string): (r: Result<CommitRecord, nat>)
    ensures r.Failure? ==> r.error < 2
  {
    Unpack(SplitOnce(line))
  }

  /**
   A line parses exactly when it has something after its first token, and
   what it parses to is well formed; a blank line reports no values at all.
   */
  lemma {:induction false} ParseWellFormed(line: string)
    ensures ParseLine(line).Success? ==> WellFormed(ParseLine(line).value)
    ensures ParseLine(line) == Failure(0) <==> IsBlank(line)
  {
    SplitOnceParts(line);
  }

  /** The log format `%H %s`: hash, one space, subject. */
  function FormatLine(c: CommitRecord): string {
    c.hash + " " + c.message
  }

  /** A commit with an empty subject prints as `hash `, which splits into the hash alone and so unpacks to one value. */
  lemma {:induction false} ParseEmptySubject(hash: string)
    requires hash != [] && HasNoWhitespace(hash)
    ensures ParseLine(FormatLine(CommitRecord(hash, ""))) == Failure(1)
  {
    var s := hash + " " + "";
    assert s[..0] == [];
    LeadingWhitespaceIs(s, 0);
    assert s[0..] == s;
    assert s[..|hash|] == hash && s[|hash|] == ' ';
    LeadingTokenIs(s, |hash|);
    var rest := s[|hash|..];
    assert rest == " " && rest[..1] == " ";
    LeadingWhitespaceIs(rest, 1);
    assert SplitOnce(s) == [hash];
  }

  /**
   The line is split at its first token: the hash is the first token of
   `str.split()`, and the message splits into all the other tokens. A line
   with fewer than two tokens fails, reporting how many it had.
   */
  lemma {:induction false} ParseAgreesWithTokens(line: string)
    ensures ParseLine(line).Success? <==> |Tokens(line)| >= 2
    ensures ParseLine(line).Failure? ==> ParseLine(line).error == |Tokens(line)|
    ensures ParseLine(line).Success? ==>
      && ParseLine(line).value.hash == Tokens(line)[0]
      && Tokens(ParseLine(line).value.message) == Tokens(line)[1..]
  {
    var t := line[LeadingWhitespace(line)..];
    if |t| > 0 {
      var n := LeadingToken(t);
      var rest := t[n..];
      var m := rest[LeadingWhitespace(rest)..];
      assert Tokens(line) == [t[..n]] + Tokens(rest);
      LeadingWhitespaceSpec(rest);
      if |m| > 0 {
        LeadingWhitespaceIs(m, 0);
        assert m[0..] == m;
        assert Tokens(m) == Tokens(rest);
      }
    }
  }

  /** `split(maxsplit=1)` in terms of where its whitespace runs and its first token end. */
  lemma {:induction false} SplitOnceAt(s: string, i: nat, n: nat, j: nat)
    requires i + n + j < |s|
    requires LeadingWhitespace(s) == i && LeadingToken(s[i..]) == n && LeadingWhitespace(s[i + n..]) == j
    ensures SplitOnce(s) == [s[i..i + n], s[i + n + j..]]
  {
    var t := s[i..];
    assert t[..n] == s[i..i + n];
    assert t[n..] == s[i + n..];
    assert t[n..][j..] == s[i + n + j..];
  }

  /**
   Reading is the inverse of writing: a hash and message, with any whitespace
   before the hash and any non-empty whitespace between them, parse back to
   the same record.
   */
  lemma {:induction false} ParsePadded(line: string, c: CommitRecord, w1: string, w2: string)
    requires WellFormed(c)
    requires IsBlank(w1) && IsBlank(w2) && w2 != []
    requires line == w1 + c.hash + w2 + c.message
    ensures ParseLine(line) == Success(c)
  {
    SplitOnceOf(line, w1, c.hash, w2, c.message);
  }

  /** `split(maxsplit=1)` of padding, a word, whitespace and a rest that starts with a non-whitespace character. */
  lemma {:induction false} SplitOnceOf(s: string, w1: string, word: string, w2: string, rest: string)
    requires IsBlank(w1) && word != [] && HasNoWhitespace(word)
    requires IsBlank(w2) && w2 != [] && rest != [] && !IsWhitespace(rest[0])
    requires s == w1 + word + w2 + rest
    ensures SplitOnce(s) == [word, rest]
  {
    var afterPad := word + w2 + rest;
    var afterWord := w2 + rest;
    assert s == w1 + afterPad;
    assert afterPad == word + afterWord;
    BlankCut(s, w1, afterPad);
    TokenCut(afterPad, word, afterWord);
    BlankCut(afterWord, w2, rest);
  }

  /** Whitespace, then a non-whitespace character: the whitespace is the leading run. */
  lemma {:induction false} BlankCut(s: string, w: string, rest: string)
    requires IsBlank(w) && rest != [] && !IsWhitespace(rest[0])
    requires s == w + rest
    ensures LeadingWhitespace(s) == |w|
    ensures s[..|w|] == w && s[|w|..] == rest
  {
    assert s[..|w|] == w && s[|w|..] == rest;
    assert s[|w|] == rest[0];
    LeadingWhitespaceIs(s, |w|);
  }

  /** A word, then a whitespace character: the word is the leading token. */
  lemma {:induction false} TokenCut(s: string, word: string, rest: string)
    requires HasNoWhitespace(word) && rest != [] && IsWhitespace(rest[0])
    requires s == word + rest
    ensures LeadingToken(s) == |word|
    ensures s[..|word|] == word && s[|word|..] == rest
  {
    assert s[..|word|] == word && s[|word|..] == rest;
    assert s[|word|] == rest[0];
    LeadingTokenIs(s, |word|);
  }

  /** In particular a line written in the log format parses back to its record. */
  lemma {:induction false} ParseFormatted(c: CommitRecord)
    requires WellFormed(c)
    ensures ParseLine(FormatLine(c)) == Success(c)
  {
    assert FormatLine(c) == "" + c.hash + " " + c.message;
    ParsePadded(FormatLine(c), c, "", " ");
  }

  /**
   Conversely every parsed line is cut in three places: whitespace before the
   hash, the hash, a non-empty run of whitespace, and the message, which is the
   whole rest of the line, so nothing inside the message is lost.
   */
  lemma {:induction false} ParseCuts(line: string) returns (i: nat, n: nat, j: nat)
    requires ParseLine(line).Success?
    ensures i + n + j <= |line| && j > 0
    ensures IsBlank(line[..i]) && IsBlank(line[i + n..i + n + j])
    ensures ParseLine(line).value.hash == line[i..i + n]
    ensures ParseLine(line).value.message == line[i + n + j..]
  {
    i, n, j := SplitOnceCuts(line);
    SplitOnceAt(line, i, n, j);
    CutsAreBlank(line, i, n, j);
  }

  /** The three cut points `split(maxsplit=1)` works with; there are two parts exactly when text follows the last cut. */
  lemma {:induction false} SplitOnceCuts(s: string) returns (i: nat, n: nat, j: nat)
    ensures i == LeadingWhitespace(s) && n == LeadingToken(s[i..]) && j == LeadingWhitespace(s[i + n..])
    ensures i + n + j <= |s|
    ensures |SplitOnce(s)| == 2 <==> i + n + j < |s|
  {
    i := LeadingWhitespace(s);
    var t := s[i..];
    n := LeadingToken(t);
    assert t[n..] == s[i + n..];
    j := LeadingWhitespace(s[i + n..]);
  }

  /** What lies before the hash and between hash and message is whitespace, and there is some between them. */
  lemma {:induction false} CutsAreBlank(s: string, i: nat, n: nat, j: nat)
    requires i == LeadingWhitespace(s) && n == LeadingToken(s[i..]) && j == LeadingWhitespace(s[i + n..])
    requires i + n + j < |s|
    ensures j > 0
    ensures IsBlank(s[..i]) && IsBlank(s[i + n..i + n + j])
  {
    var t := s[i..];
    var rest := s[i + n..];
    LeadingWhitespaceSpec(s);
    LeadingTokenSpec(t);
    LeadingWhitespaceSpec(rest);
    assert rest[0] == t[n];
    assert s[i + n..i + n + j] == rest[..j];
  }
}
