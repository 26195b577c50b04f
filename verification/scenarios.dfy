/**
 The repository's own test cases, on the model: the log output of two commits,
 the show output of two files, and the graph of two commits whose resolver
 answers one file each.
 */
module Scenarios {
  import opened Wrappers
  import opened Text
  import opened Lines
  import opened ChangeSet
  import opened CommitLine
  import opened DependencyGraph
  import opened Pipeline

  /** Two lines, each printed with a line feed after it. */
  lemma {:induction false} TwoTerminatedLines(a: string, b: string)
    requires NoLineBreak(a) && NoLineBreak(b)
    ensures SplitLines(a + "\n" + b + "\n") == [a, b]
  {
    var xs := [a, b];
    assert xs[1..] == [b] && xs[1..][1..] == [];
    assert Terminated([b]) == b + "\n";
    assert Terminated(xs) == a + "\n" + (b + "\n");
    assert a + "\n" + (b + "\n") == a + "\n" + b + "\n";
    SplitTerminatedLines(xs);
  }

  /** The history of two commits, as the log output in the history test prints them. */
  lemma HistoryScenario(log: string)
    requires log == "hash1 Commit 1" + "\n" + "hash2 Commit 2" + "\n"
    ensures CommitHistory(log) == ["hash1 Commit 1", "hash2 Commit 2"]
  {
    var a, b := "hash1 Commit 1", "hash2 Commit 2";
    assert forall k | 0 <= k < |a| :: !IsLineBreak(a[k]);
    assert forall k | 0 <= k < |b| :: !IsLineBreak(b[k]);
    TwoTerminatedLines(a, b);
  }

  /** A file name as the show command prints it is already clean. */
  lemma {:induction false} CleanName(s: string)
    requires s != [] && forall k | 0 <= k < |s| :: 'a' <= s[k] <= 'z' || '0' <= s[k] <= '9' || s[k] == '.'
    ensures IsCleanEntry(s) && NoLineBreak(s)
  {
  }

  /** The files of one commit, as the show output in the change-set test prints them. */
  lemma FilesScenario(stdout: string)
    requires stdout == "file1.py" + "\n" + "file2.py" + "\n"
    ensures CommitFiles(stdout) == ["file1.py", "file2.py"]
  {
    var a, b := "file1.py", "file2.py";
    CleanName(a);
    CleanName(b);
    TwoTerminatedLines(a, b);
    var lines := [a, b];
    CleanIdentity(lines);
  }

  /** The resolver of the graph test: the first hash has one file, the second another, and any other hash is not expected. */
  function ScenarioResolver(): Resolver {
    h => if h == "hash1" then Success(["file1.py"]) else if h == "hash2" then Success(["file2.py"]) else Failure("unexpected hash")
  }

  /**
   The graph test: two commit lines give two box nodes labelled with hash,
   message and file, and one edge from the first commit to the second.
   */
  lemma GraphScenario(commits: seq<string>)
    requires commits == ["hash1" + " " + "Commit 1", "hash2" + " " + "Commit 2"]
    ensures Build(commits, ScenarioResolver()) == Success(Graph(
      "png", "LR",
      [Node("hash1", "hash1" + "\n" + "Commit 1" + "\nFiles:\n" + "file1.py", "box"),
       Node("hash2", "hash2" + "\n" + "Commit 2" + "\nFiles:\n" + "file2.py", "box")],
      [Edge("hash1", "hash2")]))
  {
    var c1 := CommitRecord("hash1", "Commit 1");
    var c2 := CommitRecord("hash2", "Commit 2");
    assert WellFormed(c1) && WellFormed(c2);
    var resolve := ScenarioResolver();
    assert resolve(c1.hash) == Success(["file1.py"]);
    assert resolve(c2.hash) == Success(["file2.py"]);
    GraphOfTwo(commits, resolve, c1, c2, "file1.py", "file2.py");
  }

  /**
   The graph test's resolver answers in call order; the builder asks for the
   first line's hash, then the second's, so answering by hash is the same.
   */
  method CallOrderScenario(commits: seq<string>) returns (asked: seq<string>)
    requires commits == ["hash1" + " " + "Commit 1", "hash2" + " " + "Commit 2"]
    ensures asked == ["hash1", "hash2"]
  {
    var c1 := CommitRecord("hash1", "Commit 1");
    var c2 := CommitRecord("hash2", "Commit 2");
    assert WellFormed(c1) && WellFormed(c2);
    ParseFormatted(c1);
    ParseFormatted(c2);
    GraphScenario(commits);
    var r;
    r, asked := BuildDependencyGraph(commits, ScenarioResolver());
    assert asked[0] == c1.hash && asked[1] == c2.hash;
  }

  /** Two short-hashed commits, one file each, as the graph test has them. */
  lemma {:induction false} GraphOfTwo(commits: seq<string>, resolve: Resolver, c1: CommitRecord, c2: CommitRecord, f1: string, f2: string)
    requires WellFormed(c1) && WellFormed(c2)
    requires |c1.hash| < ShortHashLength && |c2.hash| < ShortHashLength
    requires commits == [FormatLine(c1), FormatLine(c2)]
    requires resolve(c1.hash) == Success([f1]) && resolve(c2.hash) == Success([f2])
    ensures Build(commits, resolve) == Success(Graph(
      ImageFormat, LeftToRight,
      [Node(c1.hash, c1.hash + "\n" + c1.message + "\nFiles:\n" + f1, BoxShape),
       Node(c2.hash, c2.hash + "\n" + c2.message + "\nFiles:\n" + f2, BoxShape)],
      [Edge(c1.hash, c2.hash)]))
  {
    var g := TwoLinesBuild(commits, resolve, c1, c2, f1, f2);
    ScenarioLabel(c1, f1);
    ScenarioLabel(c2, f2);
    var n1 := Node(c1.hash, c1.hash + "\n" + c1.message + "\nFiles:\n" + f1, BoxShape);
    var n2 := Node(c2.hash, c2.hash + "\n" + c2.message + "\nFiles:\n" + f2, BoxShape);
    assert g.nodes == [n1, n2];
    assert g.edges == [Edge(c1.hash, c2.hash)];
  }

  /** The graph of two lines that both read. */
  lemma {:induction false} TwoLinesBuild(commits: seq<string>, resolve: Resolver, c1: CommitRecord, c2: CommitRecord, f1: string, f2: string)
    returns (g: Graph)
    requires WellFormed(c1) && WellFormed(c2)
    requires commits == [FormatLine(c1), FormatLine(c2)]
    requires resolve(c1.hash) == Success([f1]) && resolve(c2.hash) == Success([f2])
    ensures Build(commits, resolve) == Success(g)
    ensures g.format == ImageFormat && g.rankdir == LeftToRight
    ensures |g.nodes| == 2 && g.nodes[0] == NodeOf(Entry(c1, [f1])) && g.nodes[1] == NodeOf(Entry(c2, [f2]))
    ensures |g.edges| == 1 && g.edges[0] == Edge(c1.hash, c2.hash)
  {
    SplitFormatted(c1);
    SplitFormatted(c2);
    SplitEachAt(commits, 0);
    SplitEachAt(commits, 1);
    g := TwoSplitsBuild(SplitEach(commits), resolve, c1, c2, f1, f2);
  }

  /** A formatted line splits into its hash and its message. */
  lemma {:induction false} SplitFormatted(c: CommitRecord)
    requires WellFormed(c)
    ensures SplitOnce(FormatLine(c)) == [c.hash, c.message]
  {
    ParseFormatted(c);
    var parts := SplitOnce(FormatLine(c));
    assert |parts| == 2 && parts[0] == c.hash && parts[1] == c.message;
  }

  /** Two lines split into hash and message, both resolving, build two nodes and the edge between them. */
  lemma {:induction false} TwoSplitsBuild(splits: seq<seq<string>>, resolve: Resolver, c1: CommitRecord, c2: CommitRecord, f1: string, f2: string)
    returns (g: Graph)
    requires |splits| == 2 && splits[0] == [c1.hash, c1.message] && splits[1] == [c2.hash, c2.message]
    requires resolve(c1.hash) == Success([f1]) && resolve(c2.hash) == Success([f2])
    ensures BuildFrom(splits, resolve, 0, NewGraph()) == Success(g)
    ensures g.format == ImageFormat && g.rankdir == LeftToRight
    ensures |g.nodes| == 2 && g.nodes[0] == NodeOf(Entry(c1, [f1])) && g.nodes[1] == NodeOf(Entry(c2, [f2]))
    ensures |g.edges| == 1 && g.edges[0] == Edge(c1.hash, c2.hash)
  {
    var e1, e2 := Entry(c1, [f1]), Entry(c2, [f2]);
    assert ReadLine(splits[0], resolve, 0) == Success(e1);
    assert ReadLine(splits[1], resolve, 1) == Success(e2);
    BuildFromStep(splits, resolve, 0, NewGraph(), e1);
    var g1 := AddNode(NewGraph(), NodeOf(e1));
    BuildFromStep(splits, resolve, 1, g1, e2);
    g := AddEdge(AddNode(g1, NodeOf(e2)), Edge(c1.hash, c2.hash));
  }

  /** The label of a short hash and one file. */
  lemma {:induction false} ScenarioLabel(c: CommitRecord, file: string)
    requires |c.hash| < ShortHashLength
    ensures Label(c.hash, c.message, [file]) == c.hash + "\n" + c.message + "\nFiles:\n" + file
  {
    LabelFormat(c.hash, c.message, [file]);
  }
}
