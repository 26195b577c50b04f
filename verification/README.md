# Commit dependency graph, modelled in Dafny

The program reads a git repository's history and draws it as a graph. It works in three steps:

- The history reader (`get_commit_history`) takes the output of `git log --pretty=format:%H %s` and splits it into lines.
- The change-set resolver (`get_commit_files`) takes the output of `git show --name-only` for one hash. It strips every line and drops the blank ones.
- The graph builder (`build_dependency_graph`) goes through the lines in order:
  - It splits each line once on whitespace into a hash and a message.
  - It asks the resolver for that hash's files.
  - It adds a box node whose label is the short hash, the message, `Files:` and the files.
  - From the second line on, it adds an edge from the previous line's hash to this one.

This project models those three steps and proves what they promise:

- Line splitting and stripping follow Python's `str.splitlines()`, `str.strip()` and `str.split(maxsplit=1)`, using Python's own whitespace and line-boundary sets.
- Building yields one node per line in log order and a chain of edges between them.
- Building fails at the first line that does not unpack, and the resolver is asked once per line, in order.
- A node's label reads back as its parts.

Modules:

- `Wrappers`: the `Result` type.
- `Text`: character classes, strip, join.
- `Lines`: `splitlines`.
- `ChangeSet`: the resolver's post-processing.
- `CommitLine`: splitting and unpacking one log line.
- `DependencyGraph`: the builder, as a function and as the loop it is.
- `Pipeline`: the steps put together.
- `Scenarios`: the repository's test cases.

The git commands are not modelled. Their outputs are parameters: `log` is the log command's output, and `show(h)` is the show command's output for hash `h`.

## Model

| member | source | states |
|---|---|---|
| Lines.SplitLines | main.py:13 | `str.splitlines()`: the text is cut at the first line boundary, with "\r\n" taken as one boundary, and the rest is split again. A boundary at the very end adds no empty line, and empty text gives no lines. The result is empty exactly when the text is. Its behaviour at each kind of boundary is stated by `Lines.SplitAtSeparator`. |
| Lines.SplitAtSeparator | main.py:13 | A boundary-free line followed by "\r\n", or by any single boundary character, is split off as one line, and the rest is split on. A "\r" counts alone only when no "\n" follows it. Together with `Lines.SplitSingleLine` this fixes the lines of every text. |
| Lines.SplitSingleLine | main.py:13 | Non-empty text without a boundary is one line. |
| Lines.TranslateNewlines | main.py:12 | The newline translation of a pipe read with `text=True`: "\r\n" and a lone "\r" each become "\n", and every other character is kept. The result is never longer than the input. |
| Lines.SplitLinesIgnoresTranslation | main.py:12-13 | Translating newlines before `splitlines()` changes no line, for every text. |
| Lines.SplitLinesNoBreak | main.py:13 | No line returned by `splitlines()` contains a line boundary. |
| Lines.SplitTerminatedLines | main.py:13 | Text in which every line, the last one included, ends in a line feed splits back into exactly those lines, with no empty line at the end. The history test's mock output (test.py:21) and the show command's output have this shape. The log command itself prints no line feed after its last entry; that shape is covered by `Lines.SplitJoin`. |
| Lines.SplitJoin | main.py:13 | Lines without boundaries joined by line feeds come back exactly, provided the last one, if there is one, is not empty. No lines give the empty text, which splits into no lines. |
| Lines.JoinSplitLines | main.py:13 | If text uses only line feeds as boundaries and does not end in one, joining its lines with line feeds gives the text back. |
| Lines.TrailingBreakIgnored | main.py:13 | One boundary after the last line adds no empty line. |
| Pipeline.CommitHistory | main.py:11-13 | The history has no more entries than the log has characters, and no entry contains a line boundary. |
| Pipeline.HistoryOfFormattedLog | main.py:11-13 | The log of any list of commits, one `hash subject` line each and no line feed after the last, reads back as exactly those lines. The only condition is that no hash or subject holds a line boundary, so empty and space-led subjects are included. |
| Text.Trim | main.py:17 | `str.strip()`: drops the leading and the trailing run of characters that Python counts as whitespace. The result is never longer than the input. |
| Text.TrimSpec | main.py:17 | `strip()` gives the empty string exactly when the text is blank. Otherwise the result starts and ends with a non-whitespace character. |
| Text.TrimIsInfix | main.py:17 | `strip()` returns a contiguous piece of its input, and only whitespace is cut on either side. |
| Text.TrimOfPadded | main.py:17 | Padding text that has no whitespace at either end with whitespace on both sides, then stripping it, gives the text back. |
| Text.TrimIdempotent | main.py:17 | Stripping twice is the same as stripping once. |
| ChangeSet.Clean | main.py:17 | The list comprehension: each line in order contributes its stripped form when that is non-empty, and nothing otherwise. The result is never longer than the input. |
| ChangeSet.CommitFiles | main.py:15-17 | Every file entry is non-empty, has no whitespace at either end, and contains no line boundary. |
| ChangeSet.CleanEntryIsStripped | main.py:17 | An entry is clean exactly when it is non-empty and `strip()` leaves it unchanged. |
| ChangeSet.CleanMembership | main.py:17 | A string is in the cleaned list exactly when some non-blank line strips to it. |
| ChangeSet.CleanPosition | main.py:17 | Order is kept: a non-blank line lands after every entry from the lines before it and before every entry from the lines after it. |
| ChangeSet.CleanIdentity | main.py:17 | Cleaning leaves a list unchanged exactly when every entry is already clean. |
| ChangeSet.CleanIdempotent | main.py:17 | Cleaning twice is the same as cleaning once. |
| ChangeSet.CleanAppend | main.py:17 | Cleaning works line by line: cleaning a concatenation is concatenating the cleaned halves. |
| CommitLine.SplitOnce | main.py:24 | `str.split(maxsplit=1)`: skip leading whitespace, take the first whitespace-free run, skip the whitespace after it, and keep everything that follows verbatim as the second part. There are at most two parts. |
| CommitLine.ParseLine | main.py:24 | `commit_hash, commit_msg = commit.split(maxsplit=1)`: two parts bind to hash and message. Fewer parts raise, and the error records how many there were, which is always fewer than two. |
| CommitLine.SplitOnceParts | main.py:24 | `split(maxsplit=1)` gives no parts exactly for blank text. The first part is a non-empty run without whitespace. The second part is non-empty and starts with a non-whitespace character. |
| CommitLine.ParseWellFormed | main.py:24 | A line that unpacks gives a well-formed hash and message. Unpacking finds zero values exactly when the line is blank. |
| CommitLine.ParseAgreesWithTokens | main.py:24 | A line unpacks exactly when it has at least two whitespace-separated tokens. Otherwise the error reports the token count. On success the hash is the first token, and the message's tokens are all the other tokens. |
| CommitLine.ParseCuts | main.py:24 | A parsed line is: whitespace, the hash, a non-empty whitespace run, and the message, which is the entire rest of the line. |
| CommitLine.ParsePadded | main.py:24 | Any whitespace before the hash, and any non-empty whitespace between hash and message, parse back to the same hash and message. |
| CommitLine.ParseEmptySubject | main.py:24 | A commit with an empty subject prints as `hash `, which unpacks to one value and raises. |
| CommitLine.ParseFormatted | main.py:24 | A well-formed commit printed as `hash message` parses back to itself. |
| DependencyGraph.ShortHash | main.py:26 | `hash[:7]` is a prefix of the hash whose length is 7, or the hash's length when the hash is shorter. |
| DependencyGraph.Label | main.py:26 | The node label: short hash, message and `Files:`, each followed by a line feed, then the files joined by line feeds. |
| DependencyGraph.LabelFormat | main.py:26 | The label is the short hash, line feed, the message, `\nFiles:\n`, then the files joined by line feeds. |
| Pipeline.LabelLines | main.py:26 | A label splits back into the short hash, the message, `Files:` and each file. This holds when none of them contains a line boundary and the last file, if any, is not empty. |
| Pipeline.NodeLabelsReadBack | main.py:19-27 | Every node of a repository's graph reads back as its short hash, its message, `Files:` and the files the show command lists for its hash. |
| DependencyGraph.ReadLine | main.py:24-25 | The first half of one iteration: unpack the line's parts, then ask the resolver for the hash's files. An unpacking error or a resolver error is raised, tagged with the line's index. On success the entry's hash is the line's first part. |
| DependencyGraph.BuildFrom | main.py:23-31 | The loop from iteration `i` on: read line `i`, append its box node, and past the first line append an edge from the previous line's first part (line 30 splits it again) to this hash, then continue; the first error raised ends the loop. |
| DependencyGraph.Build | main.py:19-33 | `build_dependency_graph`: the loop run from the first line on an empty graph with format `png` and layout direction `LR`. |
| DependencyGraph.BuildSucceeds | main.py:19-33 | Building succeeds exactly when every line unpacks and its files resolve. The graph then has one box node per line, in order, with the line's hash as id and its label as text. There are N-1 edges for N ≥ 1 lines (none for N = 0), and edge k runs from node k to node k+1. |
| DependencyGraph.BuildFails | main.py:19-33 | Otherwise building fails at the first line that does not read. Every earlier line read, and the error is that line's unpacking error or its resolver's error. |
| DependencyGraph.BuildDependencyGraph | main.py:19-33 | The loop computes what `Build` defines. The hashes handed to the resolver are the parsed hashes of the lines, in order. There is one per line on success, none for the line that failed to unpack, and one for the line whose resolver call raised. |
| DependencyGraph.AddLine | main.py:23-31 | One iteration either extends the graph so that the rest of the loop gives the same result, or raises the error the loop raises, tagged with its line index. It records the hash it asked about when the line got that far. |
| DependencyGraph.BuildFromSucceeds | main.py:23-31 | The loop over pre-split lines succeeds exactly when every line reads. It then holds each line's node in order, with each edge joining a node to the next. |
| DependencyGraph.BuildFromFails | main.py:23-31 | Otherwise the loop over pre-split lines fails with the error of the first line that does not read. |
| DependencyGraph.BuildIsChainOfReads | main.py:23-31 | Building means reading every line, then drawing the chain of the entries read. The edge from the re-split previous line (line 30) always agrees with the previous node's id. |
| DependencyGraph.ReadFromSpec | main.py:24-25 | Reading succeeds exactly when every line reads, and then gives one entry per line in order. Otherwise it fails at the first line that does not read. |
| DependencyGraph.ChainEdgesExactly | main.py:29-31 | With distinct hashes, the graph has an edge between two commits exactly when the second comes right after the first. |
| DependencyGraph.BuildDependsOnlyOnLineHashes | main.py:24-25 | The resolver is asked only about the lines' hashes: two resolvers that agree on them build the same graph. |
| Pipeline.FilesResolver | main.py:15-17 | `get_commit_files` as the builder's resolver: a hash is answered with the cleaned lines of the show command's output for it. |
| Pipeline.DependencyGraphOf | main.py:11-33 | The graph of a repository: the builder run on the history's lines, with `get_commit_files` as the resolver. |
| Pipeline.RepositoryGraphErrors | main.py:11-33 | A repository's graph succeeds exactly when every history line unpacks. Otherwise the error is `MalformedLine` at the first line that does not unpack, carrying that line's value count. The show command never makes it fail. |
| Pipeline.EmptySubjectStopsGraph | main.py:11-33 | In a log whose earlier commits all read, a commit with an empty subject stops the graph with `MalformedLine` at its index, with one value found. |
| Pipeline.FilesResolverAnswers | main.py:15-17 | The resolver never raises, because the command runs without an exit-status check, and its entries are clean single lines. |
| Pipeline.FormattedLogIsChain | main.py:11-33 | The graph of a log of printable commits has the commits' nodes in order and an edge from each commit to the next. |
| Scenarios.HistoryScenario | test.py:18-33 | The history of the test's log output is `["hash1 Commit 1", "hash2 Commit 2"]`. |
| Scenarios.FilesScenario | test.py:35-51 | The files of the test's show output are `["file1.py", "file2.py"]`. |
| Scenarios.GraphScenario | test.py:53-71 | The test's two lines give two box nodes, whose labels name hash, message and file, and one edge from `hash1` to `hash2`. |
| Scenarios.CallOrderScenario | test.py:62-63 | The builder asks for `hash1` and then `hash2`, so the mock that answers in call order acts like a resolver that answers by hash. |

## Left out

- `clone_repo`, `main` and the temporary directory (main.py:8-9 and 35 on) are not modelled. They are process and file-system plumbing: argument checking, cloning, and rendering the picture.
- Running git is not modelled. The commands' standard output is a parameter (`log`, `show`). `text=True` decoding is taken as given: strings are sequences of Unicode scalar values. `text=True` also turns "\r\n" and a lone "\r" into "\n" before `splitlines()` runs. That step is modelled as `Lines.TranslateNewlines`, but the readers leave it out, because `Lines.SplitLinesIgnoresTranslation` proves it changes no line of any text. Stripping and splitting on whitespace happen only after the text is cut into lines.
- Neither reader passes `check=True`. So a failing git command is not an error in the code: its output, usually empty, is read like any other. The model follows the code. A failing log gives an empty history. A failing show, for example for an unknown hash, gives no files, and the resolver built from it never raises. The builder still accepts any resolver that can raise, and the model proves how such errors propagate.
- In the graph test, the resolver is a mock that answers in call order. The model's resolvers answer by hash instead; `Scenarios.CallOrderScenario` shows the two agree there.
- Graphviz itself is not modelled. This covers DOT quoting, the `source` text, rendering, and the image format, which is only recorded as `png`. The graph is the list of node statements and the list of edge statements, in the order they are added. The test's count of body statements (test.py:67) is not modelled.
- `DependencyGraph.BuildError`: the code raises the unpacking `ValueError` or the resolver's exception bare. The line index in both errors, and the hash in `ResolverFailed`, are tags the model adds. The source's own error is only `found`, the number of values, or `reason`, the resolver's exception.
- Duplicate hashes are not merged or rejected. Graphviz keeps both statements, and the model appends both nodes. The chain's edge characterisation (`DependencyGraph.ChainEdgesExactly`) assumes distinct hashes.
- Whitespace and line boundaries follow Python's full sets (`str.isspace()`, `str.splitlines()`), including "\r\n" as one boundary. Nothing is simplified to ASCII. A log line with an empty subject, printed as `hash ` with a trailing space, unpacks to one value. The model, like the code, raises for it (`MalformedLine` with one value found), as `CommitLine.ParseEmptySubject` and `Pipeline.EmptySubjectStopsGraph` show.
- `DependencyGraph.Build` runs on lines already split by `split(maxsplit=1)` (`SplitEach`). Splitting is pure, so this equals splitting inside the loop. `DependencyGraph.BuildDependencyGraph` splits inside the loop, as the code does, and is proved equal.

