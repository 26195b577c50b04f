/**
 The pieces put together: the history reader's lines feed the graph builder,
 and the change-set reader answers its questions. The commands themselves are
 not modelled; their output is a parameter: `log` is what the log command
 printed, and `show(h)` what the show command printed for the hash `h`.
 */
module Pipeline {
  import opened Wrappers
  import opened Text
  import opened Lines
  import opened ChangeSet
  import opened CommitLine
  import opened DependencyGraph

  /** `get_commit_history`: one entry per line of the log output, none holding a line boundary. */
  function CommitHistory(log: string): (commits: seq<string>)
    ensures |commits| <= |log|
    ensures forall k | 0 <= k < |commits| :: NoLineBreak(commits[k])
  {
    SplitLinesNoBreak(log);
    SplitLines(log)
  }

  /**
   `get_commit_files` as the builder's resolver. The show command is run
   without a check of its exit status, so the resolver never raises: an
   unknown hash reads as whatever the command printed, typically nothing.
   */
  function FilesResolver(show: string -> string): Resolver {
    h => Success(CommitFiles(show(h)))
  }

  /** The resolver answers every hash with clean, single-line file entries. */
  lemma {:induction false} FilesResolverAnswers(show: string -> string, h: string)
    ensures FilesResolver(show)(h).Success?
    ensures var files := FilesResolver(show)(h).value;
      forall k | 0 <= k < |files| :: IsCleanEntry(files[k]) && NoLineBreak(files[k])
  {
    var files := CommitFiles(show(h));
    assert FilesResolver(show)(h) == Success(files);
  }

  /** The graph of a repository: its history, each line resolved through the show command. */
  function DependencyGraphOf(log: string, show: string -> string): Result<Graph, BuildError> {
    Build(CommitHistory(log), FilesResolver(show))
  }

  /**
   A repository's graph fails only on a log line that does not unpack: the
   show command never makes it fail. It succeeds exactly when every line of
   the history unpacks, and otherwise stops at the first line that does not,
   reporting how many values that line held.
   */
  lemma {:induction false} RepositoryGraphErrors(log: string, show: string -> string)
    ensures DependencyGraphOf(log, show).Success? <==>
      forall k | 0 <= k < |CommitHistory(log)| :: ParseLine(CommitHistory(log)[k]).Success?
    ensures DependencyGraphOf(log, show).Failure? ==>
      var commits := CommitHistory(log);
      var e := DependencyGraphOf(log, show).error;
      && e.MalformedLine? && e.index < |commits|
      && (forall j | 0 <= j < e.index :: ParseLine(commits[j]).Success?)
      && ParseLine(commits[e.index]) == Failure(e.found)
  {
    var commits := CommitHistory(log);
    var resolve := FilesResolver(show);
    forall k | 0 <= k < |commits|
      ensures LineReads(commits, resolve, k) <==> ParseLine(commits[k]).Success?
    {
      if ParseLine(commits[k]).Success? {
        FilesResolverAnswers(show, ParseLine(commits[k]).value.hash);
      }
    }
    BuildSucceeds(commits, resolve);
    BuildFails(commits, resolve);
  }

  /** The parts of a line without boundaries have none either. */
  lemma {:induction false} ParsedNoLineBreak(line: string)
    requires NoLineBreak(line) && ParseLine(line).Success?
    ensures NoLineBreak(ParseLine(line).value.hash) && NoLineBreak(ParseLine(line).value.message)
  {
    var i, n, j := ParseCuts(line);
    SliceNoLineBreak(line, i, i + n);
    SliceNoLineBreak(line, i + n + j, |line|);
  }

  /** A slice of a line without boundaries has none. */
  lemma {:induction false} SliceNoLineBreak(s: string, a: nat, b: nat)
    requires a <= b <= |s| && NoLineBreak(s)
    ensures NoLineBreak(s[a..b])
  {
    forall k | 0 <= k < b - a
      ensures !IsLineBreak(s[a..b][k])
    {
      assert s[a..b][k] == s[a + k];
    }
  }

  /** The three fixed-form lines that open a label hold no boundary when hash and message hold none. */
  lemma {:induction false} LabelHeadNoLineBreak(hash: string, message: string)
    requires NoLineBreak(hash) && NoLineBreak(message)
    ensures var head := [ShortHash(hash), message, "Files:"];
      forall k | 0 <= k < |head| :: NoLineBreak(head[k])
  {
    SliceNoLineBreak(hash, 0, |ShortHash(hash)|);
    assert ShortHash(hash) == hash[0..|ShortHash(hash)|];
    var files := "Files:";
    assert forall k | 0 <= k < |files| :: !IsLineBreak(files[k]);
  }

  /**
   A label reads back line by line: the short hash, the message, the word
   "Files:", then each file, provided none of them holds a line boundary and
   the last file, if any, is not empty.
   */
  lemma {:induction false} LabelLines(hash: string, message: string, files: seq<string>)
    requires NoLineBreak(hash) && NoLineBreak(message)
    requires forall k | 0 <= k < |files| :: NoLineBreak(files[k])
    requires files == [] || files[|files| - 1] != []
    ensures SplitLines(Label(hash, message, files)) == [ShortHash(hash), message, "Files:"] + files
  {
    var head := [ShortHash(hash), message, "Files:"];
    LabelHeadNoLineBreak(hash, message);
    if files == [] {
      SplitTerminatedLines(head);
      assert Label(hash, message, files) == Terminated(head);
      assert head + files == head;
    } else {
      SplitTerminated(head, Join("\n", files));
      SplitJoin(files);
    }
  }

  /**
   Every node of a repository's graph reads back as its short hash, its
   message, "Files:" and the files the show command listed for its hash.
   */
  lemma {:induction false} NodeLabelsReadBack(log: string, show: string -> string)
    ensures DependencyGraphOf(log, show).Success? ==>
      var commits := CommitHistory(log);
      var g := DependencyGraphOf(log, show).value;
      && |g.nodes| == |commits|
      && forall k | 0 <= k < |commits| :: ParseLine(commits[k]).Success? &&
           var c := ParseLine(commits[k]).value;
           SplitLines(g.nodes[k].text) == [ShortHash(c.hash), c.message, "Files:"] + CommitFiles(show(c.hash))
  {
    var commits := CommitHistory(log);
    var resolve := FilesResolver(show);
    BuildSucceeds(commits, resolve);
    if DependencyGraphOf(log, show).Success? {
      forall k | 0 <= k < |commits|
        ensures ParseLine(commits[k]).Success? &&
          var c := ParseLine(commits[k]).value;
          Label(c.hash, c.message, resolve(c.hash).value) == Label(c.hash, c.message, CommitFiles(show(c.hash)))
          && SplitLines(Label(c.hash, c.message, CommitFiles(show(c.hash)))) == [ShortHash(c.hash), c.message, "Files:"] + CommitFiles(show(c.hash))
      {
        assert LineReads(commits, resolve, k);
        NodeLabelReadsBack(commits[k], show);
      }
    }
  }

  /** The step of the above, for one line of the log. */
  lemma {:induction false} NodeLabelReadsBack(line: string, show: string -> string)
    requires NoLineBreak(line) && ParseLine(line).Success?
    ensures var c := ParseLine(line).value;
      SplitLines(Label(c.hash, c.message, CommitFiles(show(c.hash)))) == [ShortHash(c.hash), c.message, "Files:"] + CommitFiles(show(c.hash))
  {
    var c := ParseLine(line).value;
    var files := CommitFiles(show(c.hash));
    ParsedNoLineBreak(line);
    if files != [] {
      assert IsCleanEntry(files[|files| - 1]);
    }
    LabelLines(c.hash, c.message, files);
  }

  /** The lines the log command prints for a list of commits, one per commit. */
  function FormatAll(cs: seq<CommitRecord>): (lines: seq<string>)
    ensures |lines| == |cs|
  {
    seq(|cs|, k requires 0 <= k < |cs| => FormatLine(cs[k]))
  }

  /** A commit whose hash and message hold no line boundary. */
  predicate Printable(c: CommitRecord) {
    WellFormed(c) && NoLineBreak(c.message)
  }

  /** A printable commit formats to one non-empty line without boundaries that parses back to it. */
  lemma {:induction false} FormatLineReadsBack(c: CommitRecord)
    requires Printable(c)
    ensures FormatLine(c) != [] && NoLineBreak(FormatLine(c))
    ensures ParseLine(FormatLine(c)) == Success(c)
  {
    ParseFormatted(c);
    NoWhitespaceNoLineBreak(c.hash);
    FormatLineIsOneLine(c);
  }

  /**
   Any commit whose hash and subject hold no boundary, an empty or
   space-led subject included, prints as one non-empty line: the separating
   space is always there.
   */
  lemma {:induction false} FormatLineIsOneLine(c: CommitRecord)
    requires NoLineBreak(c.hash) && NoLineBreak(c.message)
    ensures FormatLine(c) != [] && NoLineBreak(FormatLine(c))
  {
    var line := FormatLine(c);
    forall k | 0 <= k < |line|
      ensures !IsLineBreak(line[k])
    {
      if k < |c.hash| {
        assert line[k] == c.hash[k];
      } else if k > |c.hash| {
        assert line[k] == c.message[k - |c.hash| - 1];
      }
    }
  }

  /**
   The log command's lines, joined by line feeds as it prints them, come back
   one per commit, whatever the hashes and subjects, provided none holds a
   line boundary.
   */
  lemma {:induction false} HistoryOfFormattedLog(cs: seq<CommitRecord>)
    requires forall k | 0 <= k < |cs| :: NoLineBreak(cs[k].hash) && NoLineBreak(cs[k].message)
    ensures CommitHistory(Join("\n", FormatAll(cs))) == FormatAll(cs)
  {
    var lines := FormatAll(cs);
    forall k | 0 <= k < |lines|
      ensures lines[k] != [] && NoLineBreak(lines[k])
    {
      FormatLineIsOneLine(cs[k]);
    }
    SplitJoin(lines);
  }

  /**
   The graph of a log of printable commits: one box node per commit, in log
   order, whose id is the commit's hash and whose label shows its short hash,
   its message and its files, and an edge from each commit to the next one.
   */
  lemma {:induction false} FormattedLogIsChain(cs: seq<CommitRecord>, show: string -> string)
    requires forall k | 0 <= k < |cs| :: Printable(cs[k])
    ensures DependencyGraphOf(Join("\n", FormatAll(cs)), show).Success?
    ensures var g := DependencyGraphOf(Join("\n", FormatAll(cs)), show).value;
      && |g.nodes| == |cs|
      && (forall k | 0 <= k < |cs| ::
            g.nodes[k] == Node(cs[k].hash, Label(cs[k].hash, cs[k].message, CommitFiles(show(cs[k].hash))), BoxShape))
      && |g.edges| == (if |cs| == 0 then 0 else |cs| - 1)
      && (forall k | 0 <= k < |g.edges| :: g.edges[k] == Edge(cs[k].hash, cs[k + 1].hash))
  {
    var lines := FormatAll(cs);
    var resolve := FilesResolver(show);
    forall k | 0 <= k < |cs|
      ensures NoLineBreak(cs[k].hash) && NoLineBreak(cs[k].message)
    {
      NoWhitespaceNoLineBreak(cs[k].hash);
    }
    HistoryOfFormattedLog(cs);
    forall k | 0 <= k < |lines|
      ensures ParseLine(lines[k]) == Success(cs[k]) && LineReads(lines, resolve, k)
    {
      FormatLineReadsBack(cs[k]);
    }
    BuildSucceeds(lines, resolve);
  }

  /**
   A commit with an empty subject prints as its hash and a space, which
   unpacks to one value: the graph of the log stops there with
   `MalformedLine`, provided every commit before it reads.
   */
  lemma {:induction false} EmptySubjectStopsGraph(cs: seq<CommitRecord>, show: string -> string, k: nat)
    requires forall j | 0 <= j < |cs| :: NoLineBreak(cs[j].hash) && NoLineBreak(cs[j].message)
    requires k < |cs| && forall j | 0 <= j < k :: Printable(cs[j])
    requires cs[k].hash != [] && HasNoWhitespace(cs[k].hash) && cs[k].message == []
    ensures DependencyGraphOf(Join("\n", FormatAll(cs)), show) == Failure(MalformedLine(k, 1))
  {
    var log := Join("\n", FormatAll(cs));
    var commits := FormatAll(cs);
    HistoryOfFormattedLog(cs);
    assert CommitHistory(log) == commits;
    ParseEmptySubject(cs[k].hash);
    assert cs[k] == CommitRecord(cs[k].hash, "");
    assert ParseLine(commits[k]) == Failure(1);
    forall j | 0 <= j < k
      ensures ParseLine(commits[j]).Success?
    {
      FormatLineReadsBack(cs[j]);
    }
    RepositoryGraphErrors(log, show);
  }
}
