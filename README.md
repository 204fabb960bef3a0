# pronet: a Dafny model of interaction-graph building and reporting

pronet fetches protein–protein interaction records from the STRING database.
It builds an undirected networkx graph from them and writes a summary report.
This project models that pipeline. It states and proves the properties each
stage promises.

- **Fetcher** (`fetcher.dfy`): `get_string_interactions`. Each identifier comes
  with the outcome of its request: the request failed, the body is not a list,
  or the body is a list of records. The method concatenates the listed records
  in identifier order. It also returns the identifiers a warning is printed
  for.
- **Records** (`records.dfy`): an interaction record. Its two names
  (`preferredName_A`, `preferredName_B`) and its score are each either present
  or absent. A score is an integer from 0 to 1000. A record *qualifies* when
  both names are present and non-empty, which is Python's truthiness test.
- **Graphs** (`graphs.dfy`): the part of a networkx `Graph` that pronet uses, as
  a class. Nodes are a sequence in insertion order. Weights are a map keyed on
  the unordered pair of endpoints, a one-element set for a self-loop. It
  provides `add_node`, `add_edge` (last write wins, in either orientation) and
  networkx's degree, where a self-loop counts twice. networkx counts edges as
  half the degree sum. A handshake lemma proves that this is the number of
  distinct pairs.
- **Proteins** (`proteins.dfy`): Python's `str.strip()` and the main-protein
  set, which is the set of stripped query names.
- **Builder** (`builder.dfy`): `build_network`. A method loops over the records
  and changes the graph record by record. Specification functions give the
  node list and edge map after any prefix of the records. The lemmas say what
  those are in terms of the records:
  - the node list holds exactly the names of qualifying records, once each, in
    first-`add_node` order;
  - the edges are exactly the pairs of qualifying records;
  - there are no more edges than qualifying records;
  - each edge's weight is the score of the last record naming its pair (0 when
    it has none).
- **Report** (`report.dfy`): what `generate_report` writes, as a value:
  - the main proteins and the node and edge counts;
  - the most connected protein, the first in node order with maximal degree;
  - the first five records of a stable descending sort by score, where a
    missing score counts as 0;
  - the maximum, minimum, sum and count of the scores, with the exact average.

The sort is an insertion sort. It is proved to be a permutation, non-increasing
and stable. Stable means the records of each score keep their input order. Any
two sequences with those properties are proved equal, so the result is the one
Python's `sorted(..., reverse=True)` returns.

A record adds its names only when both are present and non-empty
(`pronet/core.py:64`), so a record with one name adds no node
(`Builder.NodesExact`).

## Model

| member | source | states |
|---|---|---|
| `Fetcher.GetStringInteractions` | pronet/core.py:23-39 | The records returned are the concatenation, in identifier order, of the responses that are lists. The warnings are the identifiers whose request failed, in order. |
| `Fetcher.Collected` | pronet/core.py:24-35 | The records the loop accumulates: the payloads of the list responses, joined in order. Its properties are given by `Fetcher.CollectedAppend`, `Fetcher.CollectedSkips` and `Fetcher.CollectedMembers`. |
| `Fetcher.FailedIdentifiers` | pronet/core.py:36-37 | The identifiers a warning is printed for, in order. `Fetcher.WarningsExact` characterises them. |
| `Fetcher.CollectedAppend` | pronet/core.py:24-35 | Records from two runs of responses, one after the other, are the records of the first run followed by those of the second. |
| `Fetcher.CollectedSkips` | pronet/core.py:31-38 | Removing a failed or non-list response leaves the result unchanged, so it does not affect what the other identifiers contribute. |
| `Fetcher.CollectedMembers` | pronet/core.py:34-35 | A record is in the result exactly when some list response contains it. |
| `Fetcher.WarningsExact` | pronet/core.py:36-37 | A warning names an identifier exactly when that identifier's request failed. |
| `Proteins.Strip` | pronet/core.py:57 | `str.strip()`: leading then trailing whitespace removed. `Proteins.StripSlice` and `Proteins.StripIdempotent` give its properties. |
| `Proteins.MainProteins` | pronet/core.py:57 | `set([p.strip() for p in protein_names])`, also recomputed at `pronet/core.py:83`. `Proteins.MainProteinsExact` and `Proteins.MainProteinsSize` give its properties. |
| `Proteins.TrimStartSuffix` | pronet/core.py:57 | Stripping the start keeps a suffix of the string. It removes only whitespace and leaves no leading whitespace. |
| `Proteins.TrimEndPrefix` | pronet/core.py:57 | Stripping the end keeps a prefix of the string. It removes only whitespace and leaves no trailing whitespace. |
| `Proteins.StripSlice` | pronet/core.py:57 | `strip()` returns a contiguous slice. Everything before and after the slice is whitespace, and the slice neither starts nor ends with whitespace. |
| `Proteins.StripIdempotent` | pronet/core.py:57 | Stripping a stripped name changes nothing. |
| `Proteins.MainProteinsExact` | pronet/core.py:57 | A name is a main protein exactly when it is some query name with its whitespace stripped. |
| `Proteins.MainProteinsSize` | pronet/core.py:57 | Query names that are equal once stripped count once, so there are no more main proteins than query names. |
| `Records.Truthy` | pronet/core.py:64 | Python truthiness of a name read with `get`: false for an absent or `null` name and for the empty string. |
| `Records.Qualifies` | pronet/core.py:62-64 | A record counts exactly when both of its names are truthy. `Builder.AddInteraction` and `Builder.NodesExact` state what a record that does not count changes: nothing. |
| `Records.ScoreOrZero` | pronet/core.py:67 | `get('score', 0)`: the score, or 0 when the record has none. It is the edge weight (`Builder.LastWriteWins`), the sort key (`Report.SortByScoreStable`) and the statistics value (`Report.Scores`). |
| `Graphs.WithNode` | pronet/core.py:65-66 | Adding a node makes it a member and adds nothing else. An existing node list stays a prefix, the list grows by at most one, and it stays duplicate-free. |
| `Graphs.Neighbours` | pronet/core.py:90 | `m` is a neighbour of `n` exactly when the graph has the edge `{n, m}`, so a self-loop makes a node its own neighbour. |
| `Graphs.Degree` | pronet/core.py:90 | networkx's degree: the number of neighbours plus one for a self-loop, so a self-loop counts twice. `Graphs.DegreeWithoutEdge` gives how one edge contributes to it. |
| `Graphs.DegreeSum` | pronet/core.py:88 | The degree sum over the nodes in order, which networkx halves to count edges. `Graphs.Handshake` proves it is twice the number of edges. |
| `Graphs.NeighboursWithoutEdge` | pronet/core.py:90 | Removing the edge `{a, b}` takes `b` from the neighbours of `a` and `a` from those of `b`. No other node's neighbours change. |
| `Graphs.DegreeWithoutEdge` | pronet/core.py:90 | Removing the edge `{a, b}` lowers the degrees of `a` and `b` by one each, or by two for a self-loop. No other degree changes. |
| `Graphs.DegreeSumWithoutEdge` | pronet/core.py:88 | Removing the edge `{a, b}` lowers the degree sum by the number of times `a` and `b` occur among the nodes. |
| `Graphs.DegreeSumNoEdges` | pronet/core.py:88 | In a graph without edges, the degree sum is 0. |
| `Graphs.Handshake` | pronet/core.py:88 | When the nodes are distinct and every edge joins two of them, the degree sum is twice the number of edges, self-loops included. |
| `Graphs.Graph.NumberOfEdges` | pronet/core.py:88 | networkx's `number_of_edges()` is half the degree sum. In a valid graph, that equals the number of distinct pairs. |
| `Graphs.Graph.constructor` | pronet/core.py:56 | A new graph has no nodes and no edges, and satisfies the graph invariant. |
| `Graphs.Graph.AddNode` | pronet/core.py:65-66 | A new node is appended and a known node stays where it is. The edges are unchanged and the invariant is kept. |
| `Graphs.Graph.AddEdge` | pronet/core.py:67 | Missing endpoints are appended. The pair's weight is set and replaces any earlier weight, whichever way round the pair was added. The edge set grows by exactly that pair, and the invariant is kept. |
| `Builder.AddInteraction` | pronet/core.py:62-67 | A record with both names adds them as nodes and sets its pair's weight to its score, or 0 without one. Any other record leaves the graph unchanged. |
| `Builder.BuildNetwork` | pronet/core.py:56-67 | Gives a fresh, valid graph whose nodes and edges are those the records specify, and the main-protein set of the query names. |
| `Builder.NodesOf` | pronet/core.py:61-66 | The node list after the loop has processed a prefix of the records. `Builder.NodesFirstSeen` and `Builder.NodesExact` characterise it in terms of the records. |
| `Builder.EdgesOf` | pronet/core.py:61-67 | The edge weights after the loop has processed a prefix of the records. `Builder.EdgesExact`, `Builder.EdgeCountBound` and `Builder.LastWriteWins` characterise it in terms of the records. |
| `Builder.WithNodeFirstSeen` | pronet/core.py:65-66 | One more `add_node` call keeps the node list duplicate-free, equal as a set to the names added so far, and in first-seen order. |
| `Builder.MentionsNamed` | pronet/core.py:61-66 | A name is passed to `add_node` exactly when some qualifying record carries it. |
| `Builder.NodesFirstSeen` | pronet/core.py:61-66 | After the loop, the node list is duplicate-free and holds the names passed to `add_node`, ordered by first call. |
| `Builder.NodesExact` | pronet/core.py:61-66 | After the loop, each name of a qualifying record is a node exactly once, and there are no other nodes. |
| `Builder.EdgesExact` | pronet/core.py:61-67 | A pair is an edge exactly when some qualifying record names it, in either orientation. |
| `Builder.EdgeCountBound` | pronet/core.py:67 | There are no more edges than qualifying records. |
| `Builder.LastWriteWins` | pronet/core.py:67 | An edge's weight is the score (0 if missing) of a qualifying record naming its pair. No later qualifying record names that pair. |
| `Report.ArgMaxDegree` | pronet/core.py:92 | Returns the position that Python's `max` keeps: its degree is at least every node's degree, and every earlier node has a strictly smaller degree. |
| `Report.MostConnected` | pronet/core.py:90-93 | Exactly when the graph has nodes, gives a node and its degree. The degree is maximal and the node is the first in node order with that degree. |
| `Report.Insert` | pronet/core.py:95 | Puts a record ahead of the first record whose score is not above its own. `Report.InsertPermutes`, `Report.InsertNonIncreasing` and `Report.InsertKeepsTies` give its properties. |
| `Report.SortByScore` | pronet/core.py:95 | `sorted(data, key=lambda x: x.get('score', 0), reverse=True)`. `Report.SortByScoreStable` and `Report.StableSortUnique` prove it is the unique stable descending sort. |
| `Report.InsertPermutes` | pronet/core.py:95 | Inserting a record adds exactly that record. |
| `Report.InsertNonIncreasing` | pronet/core.py:95 | Inserting into a list sorted by descending score keeps it sorted. |
| `Report.InsertKeepsTies` | pronet/core.py:95 | An inserted record goes ahead of every record with the same score, as if it stood first. |
| `Report.SortByScoreStable` | pronet/core.py:95 | The sort is non-increasing in score, is a permutation of the records, and keeps equal-score records in input order. |
| `Report.StableSortUnique` | pronet/core.py:95 | Two sequences that are both non-increasing and have the same records per score, in the same order, are equal, so the stable descending sort is unique. |
| `Report.TopInteractions` | pronet/core.py:95-98 | The listed interactions number min(5, number of records). They are a prefix of the stable descending sort and are non-increasing in score. |
| `Report.TopInteractionsAreTop` | pronet/core.py:95 | The listed interactions are records of the input. No record left off has a higher score than the last one listed. |
| `Report.Scores` | pronet/core.py:100 | The score list has one entry per record: its score, or 0 if missing. |
| `Report.MaxOf` | pronet/core.py:102 | The maximum is a member of the list and bounds every element from above. |
| `Report.MinOf` | pronet/core.py:103 | The minimum is a member of the list and bounds every element from below. |
| `Report.SumOf` | pronet/core.py:104 | `sum(scores)`. `Report.SumBetween` bounds it with the minimum and maximum. |
| `Report.ScoreStats.Average` | pronet/core.py:104 | `sum(scores)/len(scores)` as an exact real. `Report.AverageBetween` places it between the minimum and the maximum. |
| `Report.SumBetween` | pronet/core.py:104 | A sum of n values that lie between lo and hi lies between n·lo and n·hi. |
| `Report.ScoreStatistics` | pronet/core.py:100-104 | The statistics exist exactly when there are records. Max and min are scores of records and bound every record's score. The sum and count are those of the score list. |
| `Report.AverageBetween` | pronet/core.py:104 | The average (sum divided by count, as an exact real) lies between the minimum and the maximum. |
| `Report.ThreeScores` | pronet/core.py:100-104 | Scores 100, 900 and 500 give a maximum of 900, a minimum of 100 and an average of 500. |
| `Report.GenerateReport` | pronet/core.py:79-104 | The node count is the graph's. The edge count, computed as networkx does, is the number of distinct pairs. The most-connected line is present exactly when the graph has nodes. Min(5, number of records) interactions are listed. The score lines are present exactly when there are records. |

## Left out

- The HTTP request and JSON decoding (`pronet/core.py:25-33`) are not modelled. Each identifier comes with the outcome of its request instead. `species` and `score_threshold` only parameterise that request, so they are not modelled either.
- The warning text printed for a failed request (`pronet/core.py:37`) is not modelled. The model returns the failing identifiers in its place. The exception's message is not modelled.
- Layout selection and plotting (`get_layout`, `show_plot`, `layout`; `pronet/core.py:41-49`, `69-75`) are not modelled. They hand floating-point layout and drawing to networkx and matplotlib.
- The module globals `G`, `data_global` and `main_proteins_global` (`pronet/core.py:7-9`, `55`, `58-59`) carry no logic. The graph and main-protein set are returned instead.
- Writing the report file, the final `print` and `os.startfile` (`pronet/core.py:84-88`, `93`, `96-98`, `102-107`) are I/O and are not modelled. The report's content is the value `Report.ReportContent`.
- Text formatting is not modelled:
  - the `:.2f` rounding of the average (an exact `real` here);
  - the printed `None` for a listed record that has no score;
  - the order of `', '.join(main_proteins)`, which follows Python's unspecified set iteration order.
- Only string or absent names and integer or absent scores are modelled. A `null` name reads as None through `get`, exactly as an absent one does, so `None` stands for both. JSON values of other types are not modelled: a numeric name, a `null` score (which `get('score', 0)` returns as None, not 0), or a list element that is not an object (each of which Python would handle or reject differently).
- Scores are integers from 0 to 1000, the confidence range the docstring gives for `score_threshold` (`pronet/core.py:18`), taken as the range of a record's `score` as well. Real-valued scores are not modelled.
- networkx is modelled only as far as pronet uses it: node order, one weight per unordered pair, and degree. Node and edge attribute dictionaries and edge iteration order are not modelled.
