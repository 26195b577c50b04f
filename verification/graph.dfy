/**
 The dependency graph builder: every log line becomes a box-shaped node
 labelled with its short hash, its message and its files, and consecutive
 lines are joined by an edge, so the graph is a chain in log order.

 The builder's functions work on the lines as `split(maxsplit=1)` cuts them.
 Splitting is pure, so cutting every line up front, as `SplitEach` does,
 yields the same parts the loop computes one line at a time.
 */
module DependencyGraph {
  import opened Wrappers
  import opened Text
  import opened CommitLine

  /** How many leading characters of a hash the label shows. */
  const ShortHashLength: nat := 7

  /** The shape every node is drawn with. */
  const BoxShape: string := "box"

  /** The layout direction set on the graph before any node is added. */
  const LeftToRight: string := "LR"

  /** The image format the graph is created with. */
  const ImageFormat: string := "png"

  /** A node statement: its id, its label text and its shape. */
  datatype Node = Node(id: string, text: string, shape: string)

  /** An edge statement, from `tail` to `head`. */
  datatype Edge = Edge(tail: string, head: string)

  /** The graph as the statements added to it, in the order they were added; nothing is merged. */
  datatype Graph = Graph(format: string, rankdir: string, nodes: seq<Node>, edges: seq<Edge>)

  /** Why building stopped: the line at `index` did not unpack, or the resolver raised for its hash. */
  datatype BuildError =
    | MalformedLine(index: nat, found: nat)
    | ResolverFailed(index: nat, hash: string, reason: string)
  {
    function Index(): nat {
      match this
      case MalformedLine(i, _) => i
      case ResolverFailed(i, _, _) => i
    }
  }

  /** The change-set lookup for one hash: the files of that commit, or the error it raised. */
  type Resolver = string -> Result<seq<string>, string>

  /** `hash[:7]`: the first seven characters, or the whole hash when it is shorter. */
  function ShortHash(hash: string): (s: string)
    ensures s <= hash
    ensures |s| == if |hash| < ShortHashLength then |hash| else ShortHashLength
  {
    if |hash| < ShortHashLength then hash else hash[..ShortHashLength]
  }

  /**
   The node label: short hash, message and the word "Files:", each followed by
   a line feed, then the files joined by line feeds.
   */
  function Label(hash: string, message: string, files: seq<string>): string {
    Terminated([ShortHash(hash), message, "Files:"]) + Join("\n", files)
  }

  /** The label spelled out as the format string writes it. */
  lemma {:induction false} LabelFormat(hash: string, message: string, files: seq<string>)
    ensures Label(hash, message, files) == ShortHash(hash) + "\n" + message + "\nFiles:\n" + Join("\n", files)
  {
    var h := ShortHash(hash);
    var xs := [h, message, "Files:"];
    assert xs[1..] == [message, "Files:"] && xs[1..][1..] == ["Files:"];
    assert Terminated(["Files:"]) == "Files:\n";
    assert Terminated(xs) == h + "\n" + (message + "\n" + "Files:\n");
  }

  /** The graph as created, with its layout direction set and nothing in it. */
  function NewGraph(): Graph {
    Graph(ImageFormat, LeftToRight, [], [])
  }

  function AddNode(g: Graph, n: Node): Graph {
    g.(nodes := g.nodes + [n])
  }

  function AddEdge(g: Graph, e: Edge): Graph {
    g.(edges := g.edges + [e])
  }

  /** `commit.split(maxsplit=1)` for every line, in order. */
  function SplitEach(commits: seq<string>): (splits: seq<seq<string>>)
    ensures |splits| == |commits|
  {
    if |commits| == 0 then [] else [SplitOnce(commits[0])] + SplitEach(commits[1..])
  }

  /** The parts at `k` are those of the line at `k`. */
  lemma {:induction false} SplitEachAt(commits: seq<string>, k: nat)
    requires k < |commits|
    ensures SplitEach(commits)[k] == SplitOnce(commits[k])
    decreases k
  {
    if k > 0 {
      SplitEachAt(commits[1..], k - 1);
    }
  }

  /** What one line yields once unpacked and resolved. */
  datatype Entry = Entry(commit: CommitRecord, files: seq<string>)

  /** The box node of a resolved line: the full hash as id, and the label of hash, message and files. */
  function NodeOf(e: Entry): Node {
    Node(e.commit.hash, Label(e.commit.hash, e.commit.message, e.files), BoxShape)
  }

  /**
   The first half of one iteration, on the parts of the line at `index`:
   unpack them into hash and message, then ask the resolver for the files of
   the hash. Either step can raise, and the error records where.
   */
  function ReadLine(parts: seq<string>, resolve: Resolver, index: nat): (r: Result<Entry, BuildError>)
    ensures r.Success? ==> |parts| == 2 && r.value.commit.hash == parts[0]
    ensures r.Failure? ==> r.error.Index() == index
  {
    match Unpack(parts)
    case Failure(found) => Failure(MalformedLine(index, found))
    case Success(c) =>
      match resolve(c.hash)
      case Failure(reason) => Failure(ResolverFailed(index, c.hash, reason))
      case Success(files) => Success(Entry(c, files))
  }

  /**
   The loop of the builder from iteration `i` on, with the graph `g` built so
   far: append the node of line `i`, then, past the first line, an edge to it
   from `commits[i - 1].split(maxsplit=1)[0]`, the previous line split again.
   */
  function BuildFrom(splits: seq<seq<string>>, resolve: Resolver, i: nat, g: Graph): Result<Graph, BuildError>
    requires i <= |splits|
    requires i > 0 ==> |splits[i - 1]| >= 1
    decreases |splits| - i
  {
    if i == |splits| then Success(g)
    else
      match ReadLine(splits[i], resolve, i)
      case Failure(err) => Failure(err)
      case Success(e) =>
        var withNode := AddNode(g, NodeOf(e));
        var next := if i > 0 then AddEdge(withNode, Edge(splits[i - 1][0], e.commit.hash)) else withNode;
        BuildFrom(splits, resolve, i + 1, next)
  }

  /** `build_dependency_graph`: the graph of a whole log, or the first error raised while building it. */
  function Build(commits: seq<string>, resolve: Resolver): Result<Graph, BuildError> {
    BuildFrom(SplitEach(commits), resolve, 0, NewGraph())
  }

  /**
   The reading half of the loop run over the lines from `i` on, with no graph:
   the entries of those lines in order, or the error of the first line that
   does not read.
   */
  function ReadFrom(splits: seq<seq<string>>, resolve: Resolver, i: nat): Result<seq<Entry>, BuildError>
    requires i <= |splits|
    decreases |splits| - i
  {
    if i == |splits| then Success([])
    else
      match ReadLine(splits[i], resolve, i)
      case Failure(err) => Failure(err)
      case Success(e) =>
        match ReadFrom(splits, resolve, i + 1)
        case Failure(err) => Failure(err)
        case Success(entries) => Success([e] + entries)
  }

  /** The chain through a list of entries: their nodes in order, and an edge from each hash to the next one. */
  function Chain(entries: seq<Entry>): (g: Graph)
    ensures |g.nodes| == |entries|
    ensures |g.edges| == if |entries| == 0 then 0 else |entries| - 1
  {
    var nodes := seq(|entries|, k requires 0 <= k < |entries| => NodeOf(entries[k]));
    var edges := seq(if |entries| == 0 then 0 else |entries| - 1,
      k requires 0 <= k < |entries| - 1 => Edge(entries[k].commit.hash, entries[k + 1].commit.hash));
    Graph(ImageFormat, LeftToRight, nodes, edges)
  }

  /** Appending the node of one more entry, and the edge to it from the last one, extends the chain by that entry. */
  lemma {:induction false} ChainSnoc(entries: seq<Entry>, e: Entry, prev: string)
    requires entries != [] ==> prev == entries[|entries| - 1].commit.hash
    ensures var withNode := AddNode(Chain(entries), NodeOf(e));
      Chain(entries + [e]) == if entries != [] then AddEdge(withNode, Edge(prev, e.commit.hash)) else withNode
  {
    var all := entries + [e];
    var withNode := AddNode(Chain(entries), NodeOf(e));
    var g := if entries != [] then AddEdge(withNode, Edge(prev, e.commit.hash)) else withNode;
    assert Chain(all).nodes == g.nodes by {
      forall k | 0 <= k < |all|
        ensures Chain(all).nodes[k] == g.nodes[k]
      {
        if k < |entries| {
          assert all[k] == entries[k];
        }
      }
    }
    assert Chain(all).edges == g.edges by {
      forall k | 0 <= k < |Chain(all).edges|
        ensures Chain(all).edges[k] == g.edges[k]
      {
        assert all[k] == entries[k];
        assert all[k + 1] == if k + 1 < |entries| then entries[k + 1] else e;
      }
    }
  }

  /** One iteration of the loop, on a line that reads. */
  lemma {:induction false} BuildFromStep(splits: seq<seq<string>>, resolve: Resolver, i: nat, g: Graph, e: Entry)
    requires i < |splits| && (i > 0 ==> |splits[i - 1]| >= 1)
    requires ReadLine(splits[i], resolve, i) == Success(e)
    ensures |splits[i]| >= 1
    ensures var withNode := AddNode(g, NodeOf(e));
      BuildFrom(splits, resolve, i, g)
      == BuildFrom(splits, resolve, i + 1, if i > 0 then AddEdge(withNode, Edge(splits[i - 1][0], e.commit.hash)) else withNode)
  {
  }

  /** The error of the loop and of reading, on a line that does not read. */
  lemma {:induction false} BuildFromStops(splits: seq<seq<string>>, resolve: Resolver, i: nat, g: Graph)
    requires i < |splits| && (i > 0 ==> |splits[i - 1]| >= 1)
    requires ReadLine(splits[i], resolve, i).Failure?
    ensures BuildFrom(splits, resolve, i, g) == Failure(ReadLine(splits[i], resolve, i).error)
    ensures ReadFrom(splits, resolve, i) == Failure(ReadLine(splits[i], resolve, i).error)
  {
  }

  /**
   The loop from iteration `i` on, having built the chain of the entries read
   so far (the last of them read from line `i - 1`), builds the chain of all
   entries, or stops with the error of the first line that does not read.
   */
  lemma {:induction false} BuildFromReads(splits: seq<seq<string>>, resolve: Resolver, i: nat, done: seq<Entry>)
    requires i <= |splits| && (done == [] <==> i == 0)
    requires i > 0 ==> |splits[i - 1]| >= 1 && splits[i - 1][0] == done[|done| - 1].commit.hash
    ensures ReadFrom(splits, resolve, i).Success? ==>
      BuildFrom(splits, resolve, i, Chain(done)) == Success(Chain(done + ReadFrom(splits, resolve, i).value))
    ensures ReadFrom(splits, resolve, i).Failure? ==>
      BuildFrom(splits, resolve, i, Chain(done)) == Failure(ReadFrom(splits, resolve, i).error)
    decreases |splits| - i
  {
    if i == |splits| {
      assert done + [] == done;
    } else if ReadLine(splits[i], resolve, i).Failure? {
      BuildFromStops(splits, resolve, i, Chain(done));
    } else {
      var e := ReadLine(splits[i], resolve, i).value;
      var prev := if i > 0 then splits[i - 1][0] else "";
      ChainSnoc(done, e, prev);
      BuildFromStep(splits, resolve, i, Chain(done), e);
      BuildFromReads(splits, resolve, i + 1, done + [e]);
      ReadFromStep(splits, resolve, i, e, done);
    }
  }

  /** Reading from a line that reads is that entry followed by reading from the next line. */
  lemma {:induction false} ReadFromStep(splits: seq<seq<string>>, resolve: Resolver, i: nat, e: Entry, done: seq<Entry>)
    requires i < |splits|
    requires ReadLine(splits[i], resolve, i) == Success(e)
    ensures ReadFrom(splits, resolve, i + 1).Success? ==>
      && ReadFrom(splits, resolve, i).Success?
      && done + [e] + ReadFrom(splits, resolve, i + 1).value == done + ReadFrom(splits, resolve, i).value
    ensures ReadFrom(splits, resolve, i + 1).Failure? ==> ReadFrom(splits, resolve, i) == ReadFrom(splits, resolve, i + 1)
  {
    if ReadFrom(splits, resolve, i + 1).Success? {
      var rest := ReadFrom(splits, resolve, i + 1).value;
      assert ReadFrom(splits, resolve, i) == Success([e] + rest);
      assert done + [e] + rest == done + ([e] + rest);
    }
  }

  /** Building is reading every line, then drawing the chain of the entries read. */
  lemma {:induction false} BuildIsChainOfReads(splits: seq<seq<string>>, resolve: Resolver)
    ensures ReadFrom(splits, resolve, 0).Success? ==>
      BuildFrom(splits, resolve, 0, NewGraph()) == Success(Chain(ReadFrom(splits, resolve, 0).value))
    ensures ReadFrom(splits, resolve, 0).Failure? ==>
      BuildFrom(splits, resolve, 0, NewGraph()) == Failure(ReadFrom(splits, resolve, 0).error)
  {
    assert Chain([]) == NewGraph();
    BuildFromReads(splits, resolve, 0, []);
    if ReadFrom(splits, resolve, 0).Success? {
      assert [] + ReadFrom(splits, resolve, 0).value == ReadFrom(splits, resolve, 0).value;
    }
  }

  /** The chain holds the node of each entry at its position, and each edge joins a node to the next one. */
  lemma {:induction false} ChainShape(entries: seq<Entry>)
    ensures forall k | 0 <= k < |entries| :: Chain(entries).nodes[k] == NodeOf(entries[k])
    ensures forall k | 0 <= k < |Chain(entries).edges| ::
      Chain(entries).edges[k] == Edge(Chain(entries).nodes[k].id, Chain(entries).nodes[k + 1].id)
  {
    var g := Chain(entries);
    forall k | 0 <= k < |g.edges|
      ensures g.edges[k] == Edge(g.nodes[k].id, g.nodes[k + 1].id)
    {
      assert g.nodes[k] == NodeOf(entries[k]) && g.nodes[k + 1] == NodeOf(entries[k + 1]);
    }
  }

  /** The line at `k` unpacks and its files resolve. */
  predicate LineOk(splits: seq<seq<string>>, resolve: Resolver, k: nat)
    requires k < |splits|
  {
    ReadLine(splits[k], resolve, k).Success?
  }

  /**
   Reading succeeds exactly when every line reads, and then yields one entry
   per line in order; otherwise it fails with the error of the first line
   that does not read, every line before it having read.
   */
  lemma {:induction false} ReadFromSpec(splits: seq<seq<string>>, resolve: Resolver, i: nat)
    requires i <= |splits|
    ensures ReadFrom(splits, resolve, i).Success? <==> forall k | i <= k < |splits| :: LineOk(splits, resolve, k)
    ensures ReadFrom(splits, resolve, i).Success? ==>
      && |ReadFrom(splits, resolve, i).value| == |splits| - i
      && forall k | i <= k < |splits| :: ReadLine(splits[k], resolve, k) == Success(ReadFrom(splits, resolve, i).value[k - i])
    ensures ReadFrom(splits, resolve, i).Failure? ==>
      var k := ReadFrom(splits, resolve, i).error.Index();
      && i <= k < |splits|
      && (forall j | i <= j < k :: LineOk(splits, resolve, j))
      && ReadLine(splits[k], resolve, k) == Failure(ReadFrom(splits, resolve, i).error)
    decreases |splits| - i
  {
    if i < |splits| {
      ReadFromSpec(splits, resolve, i + 1);
      if LineOk(splits, resolve, i) && ReadFrom(splits, resolve, i + 1).Success? {
        var e := ReadLine(splits[i], resolve, i).value;
        var rest := ReadFrom(splits, resolve, i + 1).value;
        var all := [e] + rest;
        assert ReadFrom(splits, resolve, i) == Success(all);
        forall k | i <= k < |splits|
          ensures ReadLine(splits[k], resolve, k) == Success(all[k - i])
        {
          if k > i {
            assert all[k - i] == rest[k - (i + 1)];
          }
        }
      }
    }
  }

  /**
   The loop as a whole, on split lines: it succeeds exactly when every line
   reads, and then holds the node of each line in order, each edge joining a
   node to the next one.
   */
  lemma {:induction false} BuildFromSucceeds(splits: seq<seq<string>>, resolve: Resolver)
    ensures BuildFrom(splits, resolve, 0, NewGraph()).Success? <==> forall k | 0 <= k < |splits| :: LineOk(splits, resolve, k)
    ensures BuildFrom(splits, resolve, 0, NewGraph()).Success? ==>
      var g := BuildFrom(splits, resolve, 0, NewGraph()).value;
      && g.format == ImageFormat && g.rankdir == LeftToRight
      && |g.nodes| == |splits|
      && |g.edges| == (if |splits| == 0 then 0 else |splits| - 1)
      && (forall k | 0 <= k < |splits| :: LineOk(splits, resolve, k) && g.nodes[k] == NodeOf(ReadLine(splits[k], resolve, k).value))
      && (forall k | 0 <= k < |g.edges| :: g.edges[k] == Edge(g.nodes[k].id, g.nodes[k + 1].id))
  {
    BuildIsChainOfReads(splits, resolve);
    ReadFromSpec(splits, resolve, 0);
    if ReadFrom(splits, resolve, 0).Success? {
      var entries := ReadFrom(splits, resolve, 0).value;
      ChainShape(entries);
      forall k | 0 <= k < |splits|
        ensures ReadLine(splits[k], resolve, k) == Success(entries[k])
      {
      }
    }
  }

  /** Otherwise the loop fails with the error of the first line that does not read, every line before it having read. */
  lemma {:induction false} BuildFromFails(splits: seq<seq<string>>, resolve: Resolver)
    ensures BuildFrom(splits, resolve, 0, NewGraph()).Failure? ==>
      var k := BuildFrom(splits, resolve, 0, NewGraph()).error.Index();
      && k < |splits|
      && (forall j | 0 <= j < k :: LineOk(splits, resolve, j))
      && ReadLine(splits[k], resolve, k) == Failure(BuildFrom(splits, resolve, 0, NewGraph()).error)
  {
    BuildIsChainOfReads(splits, resolve);
    ReadFromSpec(splits, resolve, 0);
  }

  /** The edge at `k` of a chain joins the hash of entry `k` to the hash of entry `k + 1`. */
  lemma {:induction false} ChainEdgeAt(entries: seq<Entry>, k: nat)
    requires k + 1 < |entries|
    ensures k < |Chain(entries).edges|
    ensures Chain(entries).edges[k] == Edge(entries[k].commit.hash, entries[k + 1].commit.hash)
  {
  }

  /** No two entries share a hash. */
  predicate DistinctHashes(entries: seq<Entry>) {
    forall k, l | 0 <= k < l < |entries| :: entries[k].commit.hash != entries[l].commit.hash
  }

  /** With distinct hashes, the chain joins two entries exactly when the second comes right after the first. */
  lemma {:induction false} ChainEdgesExactly(entries: seq<Entry>, a: nat, b: nat)
    requires DistinctHashes(entries)
    requires a < |entries| && b < |entries|
    ensures Edge(entries[a].commit.hash, entries[b].commit.hash) in Chain(entries).edges <==> b == a + 1
  {
    var edges := Chain(entries).edges;
    var wanted := Edge(entries[a].commit.hash, entries[b].commit.hash);
    if wanted in edges {
      var k :| 0 <= k < |edges| && edges[k] == wanted;
      ChainEdgeAt(entries, k);
      assert k == a && k + 1 == b by {
        SameHashSameIndex(entries, k, a);
        SameHashSameIndex(entries, k + 1, b);
      }
    }
    if b == a + 1 {
      ChainEdgeAt(entries, a);
    }
  }

  /** With distinct hashes, a hash tells its entry. */
  lemma {:induction false} SameHashSameIndex(entries: seq<Entry>, k: nat, l: nat)
    requires DistinctHashes(entries)
    requires k < |entries| && l < |entries| && entries[k].commit.hash == entries[l].commit.hash
    ensures k == l
  {
  }

  /**
   The resolver is asked only about the hashes of the lines: two resolvers
   that agree on the first part of every two-part line give the same result.
   */
  lemma {:induction false} BuildDependsOnlyOnLineHashes(splits: seq<seq<string>>, r1: Resolver, r2: Resolver, i: nat, g: Graph)
    requires i <= |splits|
    requires i > 0 ==> |splits[i - 1]| >= 1
    requires forall k | i <= k < |splits| && |splits[k]| == 2 :: r1(splits[k][0]) == r2(splits[k][0])
    ensures BuildFrom(splits, r1, i, g) == BuildFrom(splits, r2, i, g)
    decreases |splits| - i
  {
    if i < |splits| {
      var a := ReadLine(splits[i], r1, i);
      assert a == ReadLine(splits[i], r2, i);
      if a.Success? {
        var withNode := AddNode(g, NodeOf(a.value));
        var next := if i > 0 then AddEdge(withNode, Edge(splits[i - 1][0], a.value.commit.hash)) else withNode;
        BuildDependsOnlyOnLineHashes(splits, r1, r2, i + 1, next);
      }
    }
  }

  /** The line at `k` of the log parses, and the resolver returns the files of its hash. */
  predicate LineReads(commits: seq<string>, resolve: Resolver, k: nat)
    requires k < |commits|
  {
    ParseLine(commits[k]).Success? && resolve(ParseLine(commits[k]).value.hash).Success?
  }

  /** The error the line at `k` raises when it does not read: its unpacking, else its resolver call. */
  function LineError(commits: seq<string>, resolve: Resolver, k: nat): (err: BuildError)
    requires k < |commits| && !LineReads(commits, resolve, k)
    ensures err.Index() == k
  {
    match ParseLine(commits[k])
    case Failure(found) => MalformedLine(k, found)
    case Success(c) => ResolverFailed(k, c.hash, resolve(c.hash).error)
  }

  /** Reading the pre-split line at `k` is parsing the line at `k` and resolving its hash. */
  lemma {:induction false} ReadLineOfCommit(commits: seq<string>, resolve: Resolver, k: nat)
    requires k < |commits|
    ensures ReadLine(SplitEach(commits)[k], resolve, k).Success? <==> LineReads(commits, resolve, k)
    ensures LineReads(commits, resolve, k) ==>
      var c := ParseLine(commits[k]).value;
      ReadLine(SplitEach(commits)[k], resolve, k).value == Entry(c, resolve(c.hash).value)
    ensures !LineReads(commits, resolve, k) ==> ReadLine(SplitEach(commits)[k], resolve, k) == Failure(LineError(commits, resolve, k))
  {
    SplitEachAt(commits, k);
  }

  /**
   `build_dependency_graph` succeeds exactly when every line parses and its
   files resolve. The graph then holds, for the line at `k`, a box node whose
   id is the line's hash and whose label shows its short hash, its message and
   its files, and an edge from each node to the node of the next line.
   */
  lemma {:induction false} BuildSucceeds(commits: seq<string>, resolve: Resolver)
    ensures Build(commits, resolve).Success? <==> forall k | 0 <= k < |commits| :: LineReads(commits, resolve, k)
    ensures Build(commits, resolve).Success? ==>
      var g := Build(commits, resolve).value;
      && g.format == ImageFormat && g.rankdir == LeftToRight
      && |g.nodes| == |commits|
      && |g.edges| == (if |commits| == 0 then 0 else |commits| - 1)
      && (forall k | 0 <= k < |commits| :: LineReads(commits, resolve, k) &&
            var c := ParseLine(commits[k]).value;
            g.nodes[k] == Node(c.hash, Label(c.hash, c.message, resolve(c.hash).value), BoxShape))
      && (forall k | 0 <= k < |g.edges| :: g.edges[k] == Edge(g.nodes[k].id, g.nodes[k + 1].id))
  {
    var splits := SplitEach(commits);
    BuildFromSucceeds(splits, resolve);
    forall k | 0 <= k < |commits|
      ensures LineOk(splits, resolve, k) <==> LineReads(commits, resolve, k)
      ensures LineReads(commits, resolve, k) ==>
        var c := ParseLine(commits[k]).value;
        NodeOf(ReadLine(splits[k], resolve, k).value) == Node(c.hash, Label(c.hash, c.message, resolve(c.hash).value), BoxShape)
    {
      ReadLineOfCommit(commits, resolve, k);
    }
  }

  /**
   Otherwise it fails with the error of the first line that does not read:
   every line before it parsed and resolved, and the error is that line's
   unpacking error, or else its resolver's.
   */
  lemma {:induction false} BuildFails(commits: seq<string>, resolve: Resolver)
    ensures Build(commits, resolve).Failure? ==>
      var k := Build(commits, resolve).error.Index();
      && k < |commits|
      && (forall j | 0 <= j < k :: LineReads(commits, resolve, j))
      && !LineReads(commits, resolve, k)
      && Build(commits, resolve).error == LineError(commits, resolve, k)
  {
    var splits := SplitEach(commits);
    BuildFromFails(splits, resolve);
    if Build(commits, resolve).Failure? {
      var k := Build(commits, resolve).error.Index();
      ReadLineOfCommit(commits, resolve, k);
      PrefixReads(commits, resolve, k);
    }
  }

  /** Lines that read once split read as log lines. */
  lemma {:induction false} PrefixReads(commits: seq<string>, resolve: Resolver, k: nat)
    requires k <= |commits|
    requires forall j | 0 <= j < k :: LineOk(SplitEach(commits), resolve, j)
    ensures forall j | 0 <= j < k :: LineReads(commits, resolve, j)
  {
    forall j | 0 <= j < k
      ensures LineReads(commits, resolve, j)
    {
      assert LineOk(SplitEach(commits), resolve, j);
      ReadLineOfCommit(commits, resolve, j);
    }
  }

  /** `asked` are the hashes of the first `|asked|` lines of the log, in order, each of which parsed. */
  predicate AskedInOrder(commits: seq<string>, asked: seq<string>) {
    && |asked| <= |commits|
    && forall k | 0 <= k < |asked| :: ParseLine(commits[k]).Success? && asked[k] == ParseLine(commits[k]).value.hash
  }

  /** Asking for the hash of the next line keeps the hashes asked for in order. */
  lemma {:induction false} AskedNext(commits: seq<string>, asked: seq<string>, c: CommitRecord)
    requires AskedInOrder(commits, asked) && |asked| < |commits|
    requires ParseLine(commits[|asked|]) == Success(c)
    ensures AskedInOrder(commits, asked + [c.hash])
  {
    var more := asked + [c.hash];
    forall k | 0 <= k < |more|
      ensures ParseLine(commits[k]).Success? && more[k] == ParseLine(commits[k]).value.hash
    {
      if k < |asked| {
        assert more[k] == asked[k];
      }
    }
  }

  /**
   One iteration of `build_dependency_graph`, on the line at `i`: split and
   unpack it, hand its hash to the resolver, add its node, then, past the
   first line, an edge from the previous line, split once more, to this one.
   `asked` gains the hash handed to the resolver, if the line got that far.
   */
  method AddLine(commits: seq<string>, resolve: Resolver, i: nat, g: Graph, asked: seq<string>)
    returns (r: Result<Graph, BuildError>, askedNow: seq<string>)
    requires i < |commits| && (i > 0 ==> |SplitEach(commits)[i - 1]| == 2)
    requires AskedInOrder(commits, asked) && |asked| == i
    ensures r.Success? ==> |SplitEach(commits)[i]| == 2 && BuildFrom(SplitEach(commits), resolve, i + 1, r.value) == BuildFrom(SplitEach(commits), resolve, i, g)
    ensures r.Failure? ==> r == BuildFrom(SplitEach(commits), resolve, i, g) && r.error.Index() == i
    ensures AskedInOrder(commits, askedNow)
    ensures |askedNow| == if r.Failure? && r.error.MalformedLine? then i else i + 1
  {
    ReadLineOfCommit(commits, resolve, i);
    SplitEachAt(commits, i);
    var parts := SplitOnce(commits[i]);
    match Unpack(parts)
    case Failure(found) =>
      r, askedNow := Failure(MalformedLine(i, found)), asked;
    case Success(c) =>
      AskedNext(commits, asked, c);
      askedNow := asked + [c.hash];
      match resolve(c.hash)
      case Failure(reason) =>
        r := Failure(ResolverFailed(i, c.hash, reason));
      case Success(files) =>
        BuildFromStep(SplitEach(commits), resolve, i, g, Entry(c, files));
        var next := AddNode(g, Node(c.hash, Label(c.hash, c.message, files), BoxShape));
        if i > 0 {
          var previous := SplitOnce(commits[i - 1]);
          SplitEachAt(commits, i - 1);
          next := AddEdge(next, Edge(previous[0], c.hash));
        }
        r := Success(next);
  }

  /**
   `build_dependency_graph` as the loop it is, line by line until one raises.
   `asked` lists the hashes handed to the resolver, in order: one per line up
   to the line that failed to unpack, or up to and including the line whose
   resolver call raised.
   */
  method BuildDependencyGraph(commits: seq<string>, resolve: Resolver) returns (r: Result<Graph, BuildError>, asked: seq<string>)
    ensures r == Build(commits, resolve)
    ensures AskedInOrder(commits, asked)
    ensures r.Success? ==> |asked| == |commits|
    ensures r.Failure? && r.error.MalformedLine? ==> |asked| == r.error.index
    ensures r.Failure? && r.error.ResolverFailed? ==> |asked| == r.error.index + 1
  {
    var g := NewGraph();
    asked := [];
    var i := 0;
    while i < |commits|
      invariant i <= |commits| && |asked| == i
      invariant AskedInOrder(commits, asked)
      invariant i > 0 ==> |SplitEach(commits)[i - 1]| == 2
      invariant BuildFrom(SplitEach(commits), resolve, i, g) == Build(commits, resolve)
    {
      var step;
      step, asked := AddLine(commits, resolve, i, g, asked);
      if step.Failure? {
        r := step;
        return;
      }
      g := step.value;
      i := i + 1;
    }
    r := Success(g);
  }
}
