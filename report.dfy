/** The content of the report `generate_report` writes: the main proteins, the
    node and edge counts, the most connected protein, the five best scored
    interactions and the minimum, maximum and mean score. */
module Report {
  import opened Records
  import opened Graphs
  import opened Proteins

  /** How many interactions the report lists. */
  const TopCount: nat := 5

  // ---------------------------------------------------------------------------
  // Most connected protein: `max(degrees, key=degrees.get)`

  /** The position `max` settles on when it walks the nodes in order, keeping
      the current best and replacing it only by a strictly larger degree. */
  function ArgMaxDegree(nodes: seq<string>, weights: map<Edge, Score>): (k: nat)
    requires nodes != []
    ensures k < |nodes|
    ensures forall j :: 0 <= j < |nodes| ==> Degree(weights, nodes[j]) <= Degree(weights, nodes[k])
    ensures forall j :: 0 <= j < k ==> Degree(weights, nodes[j]) < Degree(weights, nodes[k])
  {
    var n := |nodes| - 1;
    if n == 0 then 0
    else
      var k := ArgMaxDegree(nodes[..n], weights);
      assert nodes[k] == nodes[..n][k];
      assert forall j :: 0 <= j < n ==> nodes[j] == nodes[..n][j];
      if Degree(weights, nodes[k]) < Degree(weights, nodes[n]) then n else k
  }

  datatype Hub = Hub(name: string, degree: nat)

  /** The protein named on the "Most connected protein" line, with its degree;
      None when the graph has no nodes and the line is left out. */
  function MostConnected(nodes: seq<string>, weights: map<Edge, Score>): (h: Option<Hub>)
    ensures h.None? <==> nodes == []
    ensures h.Some? ==> h.value.name in nodes && h.value.degree == Degree(weights, h.value.name)
    ensures h.Some? ==> forall n :: n in nodes ==> Degree(weights, n) <= h.value.degree
    ensures h.Some? ==> exists k :: 0 <= k < |nodes| && nodes[k] == h.value.name
                                    && forall j :: 0 <= j < k ==> Degree(weights, nodes[j]) < h.value.degree
  {
    if nodes == [] then None
    else
      var k := ArgMaxDegree(nodes, weights);
      Some(Hub(nodes[k], Degree(weights, nodes[k])))
  }

  // ---------------------------------------------------------------------------
  // Top interactions: `sorted(data, key=lambda x: x.get('score', 0), reverse=True)[:5]`

  /** Scores never increase along `s`. */
  ghost predicate NonIncreasing(s: seq<Record>) {
    forall i, j :: 0 <= i < j < |s| ==> ScoreOrZero(s[j]) <= ScoreOrZero(s[i])
  }

  /** The records of `s` whose score (0 when missing) is `k`, in their order in
      `s`. */
  function WithScore(s: seq<Record>, k: int): seq<Record> {
    if s == [] then []
    else (if ScoreOrZero(s[0]) == k then [s[0]] else []) + WithScore(s[1..], k)
  }

  /** A stable descending sort keeps the records of any one score in the order
      they had. */
  ghost predicate KeepsTies(t: seq<Record>, s: seq<Record>) {
    forall k :: WithScore(t, k) == WithScore(s, k)
  }

  /** Puts `x` in front of the first record whose score is not above its own. */
  function Insert(x: Record, t: seq<Record>): seq<Record> {
    if t == [] || ScoreOrZero(t[0]) <= ScoreOrZero(x) then [x] + t
    else [t[0]] + Insert(x, t[1..])
  }

  /** The records ordered by descending score, ties in input order. */
  function SortByScore(s: seq<Record>): seq<Record> {
    if s == [] then [] else Insert(s[0], SortByScore(s[1..]))
  }

  lemma {:induction false} InsertPermutes(x: Record, t: seq<Record>)
    ensures multiset(Insert(x, t)) == multiset([x] + t)
  {
    if t != [] && ScoreOrZero(x) < ScoreOrZero(t[0]) {
      InsertPermutes(x, t[1..]);
      assert [x] + t == [x, t[0]] + t[1..];
      assert t == [t[0]] + t[1..];
    }
  }

  lemma {:induction false} InsertNonIncreasing(x: Record, t: seq<Record>)
    requires NonIncreasing(t)
    ensures NonIncreasing(Insert(x, t))
  {
    if t != [] && ScoreOrZero(x) < ScoreOrZero(t[0]) {
      var rest := Insert(x, t[1..]);
      InsertNonIncreasing(x, t[1..]);
      InsertPermutes(x, t[1..]);
      var r := [t[0]] + rest;
      assert Insert(x, t) == r;
      forall i, j | 0 <= i < j < |r|
        ensures ScoreOrZero(r[j]) <= ScoreOrZero(r[i])
      {
        if i == 0 {
          var y := r[j];
          assert y == rest[j - 1];
          assert y in multiset(rest);
          assert y in multiset([x] + t[1..]);
          if y != x {
            assert y in t[1..];
          }
        }
      }
    }
  }

  lemma {:induction false} InsertKeepsTies(x: Record, t: seq<Record>, k: int)
    ensures WithScore(Insert(x, t), k) == WithScore([x] + t, k)
  {
    if t != [] && ScoreOrZero(x) < ScoreOrZero(t[0]) {
      InsertKeepsTies(x, t[1..], k);
      assert ([t[0]] + Insert(x, t[1..]))[1..] == Insert(x, t[1..]);
      assert ([x] + t)[1..] == t;
      assert ([x] + t[1..])[1..] == t[1..];
    }
  }

  /** The sort orders the records by descending score, is a permutation of
      them, and keeps records of equal score in input order. */
  lemma {:induction false} SortByScoreStable(s: seq<Record>)
    ensures NonIncreasing(SortByScore(s))
    ensures multiset(SortByScore(s)) == multiset(s)
    ensures KeepsTies(SortByScore(s), s)
  {
    if s != [] {
      var rest := SortByScore(s[1..]);
      SortByScoreStable(s[1..]);
      InsertNonIncreasing(s[0], rest);
      InsertPermutes(s[0], rest);
      assert s == [s[0]] + s[1..];
      forall k
        ensures WithScore(SortByScore(s), k) == WithScore(s, k)
      {
        InsertKeepsTies(s[0], rest, k);
        assert ([s[0]] + rest)[1..] == rest;
      }
    }
  }

  lemma {:induction false} WithScoreMember(s: seq<Record>, k: int)
    requires WithScore(s, k) != []
    ensures exists i :: 0 <= i < |s| && ScoreOrZero(s[i]) == k
  {
    if ScoreOrZero(s[0]) != k {
      WithScoreMember(s[1..], k);
      var i :| 0 <= i < |s[1..]| && ScoreOrZero(s[1..][i]) == k;
      assert s[i + 1] == s[1..][i];
    }
  }

  /** Descending order and the order of ties fix the result: any stable
      descending sort of the same records is this one, so the sort is the one
      Python's `sorted(..., reverse=True)` gives. */
  lemma {:induction false} StableSortUnique(t1: seq<Record>, t2: seq<Record>)
    requires NonIncreasing(t1) && NonIncreasing(t2) && KeepsTies(t1, t2)
    ensures t1 == t2
    decreases |t1| + |t2|
  {
    if t1 == [] || t2 == [] {
      var k := if t1 != [] then ScoreOrZero(t1[0]) else if t2 != [] then ScoreOrZero(t2[0]) else 0;
      assert WithScore(t1, k) == WithScore(t2, k);
    } else {
      var k1, k2 := ScoreOrZero(t1[0]), ScoreOrZero(t2[0]);
      if k1 < k2 {
        assert WithScore(t2, k2) != [];
        WithScoreMember(t1, k2);
        assert false;
      } else if k2 < k1 {
        assert WithScore(t1, k1) != [];
        WithScoreMember(t2, k1);
        assert false;
      }
      assert t1[0] == WithScore(t1, k1)[0] == WithScore(t2, k1)[0] == t2[0];
      forall k
        ensures WithScore(t1[1..], k) == WithScore(t2[1..], k)
      {
        if k == k1 {
          assert WithScore(t1[1..], k) == WithScore(t1, k)[1..];
          assert WithScore(t2[1..], k) == WithScore(t2, k)[1..];
        } else {
          assert WithScore(t1[1..], k) == WithScore(t1, k);
          assert WithScore(t2[1..], k) == WithScore(t2, k);
        }
      }
      StableSortUnique(t1[1..], t2[1..]);
      assert t1 == [t1[0]] + t1[1..];
      assert t2 == [t2[0]] + t2[1..];
    }
  }

  /** The interactions listed under "Top 5 interactions". */
  function TopInteractions(data: seq<Record>): (top: seq<Record>)
    ensures |top| == if |data| < TopCount then |data| else TopCount
    ensures top <= SortByScore(data)
    ensures NonIncreasing(top)
  {
    SortByScoreStable(data);
    assert |SortByScore(data)| == |data| by {
      assert |multiset(SortByScore(data))| == |multiset(data)|;
    }
    var n := if |data| < TopCount then |data| else TopCount;
    SortByScore(data)[..n]
  }

  /** The listed interactions are records of `data`, and no record left off
      the list has a higher score than the last one listed. */
  lemma TopInteractionsAreTop(data: seq<Record>)
    ensures multiset(TopInteractions(data)) <= multiset(data)
    ensures forall x :: x in multiset(data) - multiset(TopInteractions(data)) ==>
              ScoreOrZero(x) <= ScoreOrZero(TopInteractions(data)[|TopInteractions(data)| - 1])
  {
    var sorted, top := SortByScore(data), TopInteractions(data);
    SortByScoreStable(data);
    var rest := sorted[|top|..];
    assert sorted == top + rest;
    assert multiset(sorted) == multiset(top) + multiset(rest);
    forall x | x in multiset(data) - multiset(top)
      ensures ScoreOrZero(x) <= ScoreOrZero(top[|top| - 1])
    {
      assert x in multiset(rest);
      var j :| 0 <= j < |rest| && rest[j] == x;
      assert sorted[|top| + j] == x;
      if top == [] {
        assert false;
      }
      assert sorted[|top| - 1] == top[|top| - 1];
    }
  }

  // ---------------------------------------------------------------------------
  // Score statistics: `scores = [edge.get('score', 0) for edge in data]`

  function Scores(data: seq<Record>): (s: seq<int>)
    ensures |s| == |data|
    ensures forall i :: 0 <= i < |data| ==> s[i] == ScoreOrZero(data[i])
  {
    if data == [] then [] else Scores(data[..|data| - 1]) + [ScoreOrZero(data[|data| - 1])]
  }

  /** `max(scores)` */
  function MaxOf(s: seq<int>): (m: int)
    requires s != []
    ensures m in s
    ensures forall i :: 0 <= i < |s| ==> s[i] <= m
  {
    var n := |s| - 1;
    if n == 0 then s[0]
    else
      var m := MaxOf(s[..n]);
      assert forall i :: 0 <= i < n ==> s[i] == s[..n][i];
      if m < s[n] then s[n] else m
  }

  /** `min(scores)` */
  function MinOf(s: seq<int>): (m: int)
    requires s != []
    ensures m in s
    ensures forall i :: 0 <= i < |s| ==> m <= s[i]
  {
    var n := |s| - 1;
    if n == 0 then s[0]
    else
      var m := MinOf(s[..n]);
      assert forall i :: 0 <= i < n ==> s[i] == s[..n][i];
      if s[n] < m then s[n] else m
  }

  /** `sum(scores)` */
  function SumOf(s: seq<int>): int {
    if s == [] then 0 else SumOf(s[..|s| - 1]) + s[|s| - 1]
  }

  /** A sum of `|s|` values, each between `lo` and `hi`, lies between
      `|s| * lo` and `|s| * hi`. */
  lemma {:induction false} SumBetween(s: seq<int>, lo: int, hi: int)
    requires forall i :: 0 <= i < |s| ==> lo <= s[i] <= hi
    ensures |s| * lo <= SumOf(s) <= |s| * hi
  {
    if s != [] {
      var n := |s| - 1;
      SumBetween(s[..n], lo, hi);
      assert |s| * lo == n * lo + lo;
      assert |s| * hi == n * hi + hi;
    }
  }

  /** The three score lines of the report; `total / count` is the average. */
  datatype ScoreStats = ScoreStats(maxScore: int, minScore: int, total: int, count: nat) {
    function Average(): real
      requires count > 0
    {
      total as real / count as real
    }
  }

  /** The score lines, present exactly when there is at least one record. */
  function ScoreStatistics(data: seq<Record>): (st: Option<ScoreStats>)
    ensures st.None? <==> data == []
    ensures st.Some? ==> st.value.count == |data| && st.value.total == SumOf(Scores(data))
    ensures st.Some? ==> st.value.maxScore in Scores(data) && st.value.minScore in Scores(data)
    ensures st.Some? ==> forall r :: r in data ==> st.value.minScore <= ScoreOrZero(r) <= st.value.maxScore
  {
    if data == [] then None
    else
      var s := Scores(data);
      assert forall r :: r in data ==> ScoreOrZero(r) in s;
      Some(ScoreStats(MaxOf(s), MinOf(s), SumOf(s), |s|))
  }

  /** A mean of values between `lo` and `hi` is between them as well. */
  lemma MeanBetween(lo: int, hi: int, total: int, n: nat)
    requires n > 0 && n * lo <= total <= n * hi
    ensures lo as real <= total as real / n as real <= hi as real
  {
  }

  /** The average score lies between the minimum and the maximum. */
  lemma AverageBetween(data: seq<Record>)
    requires data != []
    ensures var st := ScoreStatistics(data).value;
            st.minScore as real <= st.Average() <= st.maxScore as real
  {
    var st := ScoreStatistics(data).value;
    SumBetween(Scores(data), st.minScore, st.maxScore);
    MeanBetween(st.minScore, st.maxScore, st.total, st.count);
  }

  /** Records scored 100, 900 and 500 report a maximum of 900, a minimum of
      100 and an average of 500. */
  lemma ThreeScores(a: Record, b: Record, c: Record)
    requires a.score == Some(100) && b.score == Some(900) && c.score == Some(500)
    ensures var st := ScoreStatistics([a, b, c]);
            st.Some? && st.value.maxScore == 900 && st.value.minScore == 100 && st.value.Average() == 500.0
  {
    var s := Scores([a, b, c]);
    assert s == [100, 900, 500];
    assert s[..2] == [100, 900] && s[..2][..1] == [100];
    assert MaxOf(s[..2]) == 900;
    assert MaxOf(s) == 900;
    assert MinOf(s[..2]) == 100;
    assert MinOf(s) == 100;
    assert s[..2][..1][..0] == [];
    assert SumOf(s[..2][..1]) == 100;
    assert SumOf(s[..2]) == 1000;
    assert SumOf(s) == 1500;
  }

  // ---------------------------------------------------------------------------
  // The whole report

  datatype ReportContent = ReportContent(
    mainProteins: set<string>,
    nodeCount: nat,
    edgeCount: nat,
    mostConnected: Option<Hub>,
    top: seq<Record>,
    stats: Option<ScoreStats>)

  /** `generate_report` without the file output: what the report says about
      the graph `g`, the query names and the records. */
  function GenerateReport(g: Graph, proteinNames: seq<string>, data: seq<Record>): (rep: ReportContent)
    reads g
    requires g.Valid()
    ensures rep.nodeCount == |g.nodes| && rep.edgeCount == |g.weights|
    ensures rep.mostConnected.Some? <==> g.nodes != []
    ensures |rep.top| == if |data| < TopCount then |data| else TopCount
    ensures rep.stats.Some? <==> data != []
  {
    ReportContent(
      MainProteins(proteinNames),
      |g.nodes|,
      g.NumberOfEdges(),
      MostConnected(g.nodes, g.weights),
      TopInteractions(data),
      ScoreStatistics(data))
  }
}
