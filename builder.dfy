/** `build_network`: turning interaction records into a graph, one record at a
    time. */
module Builder {
  import opened Records
  import opened Graphs
  import opened Proteins

  /** The pair a qualifying record joins. */
  function RecordEdge(r: Record): Edge
    requires Qualifies(r)
  {
    EdgeOf(r.nameA.value, r.nameB.value)
  }

  /** The names `add_node` is called with, in call order: for each qualifying
      record its A name, then its B name. */
  function Mentions(data: seq<Record>): seq<string> {
    if data == [] then []
    else
      var r := data[|data| - 1];
      Mentions(data[..|data| - 1]) + if Qualifies(r) then [r.nameA.value, r.nameB.value] else []
  }

  /** The node list after the loop has processed `data`. */
  function NodesOf(data: seq<Record>): seq<string> {
    if data == [] then []
    else
      var r := data[|data| - 1];
      var before := NodesOf(data[..|data| - 1]);
      if Qualifies(r) then WithNode(WithNode(before, r.nameA.value), r.nameB.value) else before
  }

  /** The edge weights after the loop has processed `data`. */
  function EdgesOf(data: seq<Record>): map<Edge, Score> {
    if data == [] then map[]
    else
      var r := data[|data| - 1];
      var before := EdgesOf(data[..|data| - 1]);
      if Qualifies(r) then before[RecordEdge(r) := ScoreOrZero(r)] else before
  }

  /** The number of records that contribute an edge. */
  function QualifyingCount(data: seq<Record>): nat {
    if data == [] then 0
    else QualifyingCount(data[..|data| - 1]) + if Qualifies(data[|data| - 1]) then 1 else 0
  }

  /** Some qualifying record of `data` names `n`. */
  ghost predicate Named(data: seq<Record>, n: string) {
    exists i :: 0 <= i < |data| && Qualifies(data[i]) && n in RecordEdge(data[i])
  }

  /** `d` lists distinct names in the order of their first occurrence in `s`:
      whenever a later entry of `d` occurs in `s`, every earlier entry has
      already occurred before it. */
  ghost predicate FirstSeenOrder(d: seq<string>, s: seq<string>) {
    forall i, j, k :: 0 <= i < j < |d| && 0 <= k < |s| && s[k] == d[j] ==> d[i] in s[..k]
  }

  ghost predicate ListsFirstSeen(d: seq<string>, s: seq<string>) {
    && NoDuplicates(d)
    && (forall n :: n in d <==> n in s)
    && FirstSeenOrder(d, s)
  }

  /** One more `add_node` call keeps the node list in first-seen order. */
  lemma WithNodeFirstSeen(d: seq<string>, s: seq<string>, x: string)
    requires ListsFirstSeen(d, s)
    ensures ListsFirstSeen(WithNode(d, x), s + [x])
  {
    var d', s' := WithNode(d, x), s + [x];
    forall i, j, k | 0 <= i < j < |d'| && 0 <= k < |s'| && s'[k] == d'[j]
      ensures d'[i] in s'[..k]
    {
      if k < |s| {
        assert s'[..k] == s[..k];
        if x !in d {
          assert j < |d|;
        }
      } else {
        assert s'[..k] == s;
        if x !in d {
          assert d'[i] == d[i];
        }
      }
    }
  }

  /** The names occurring in the add_node calls are those of the qualifying
      records. */
  lemma {:induction false} MentionsNamed(data: seq<Record>, n: string)
    ensures n in Mentions(data) <==> Named(data, n)
  {
    if data != [] {
      var m := |data| - 1;
      var front := data[..m];
      MentionsNamed(front, n);
      if Named(front, n) {
        var i :| 0 <= i < |front| && Qualifies(front[i]) && n in RecordEdge(front[i]);
        assert data[i] == front[i];
      }
      if Named(data, n) {
        var i :| 0 <= i < |data| && Qualifies(data[i]) && n in RecordEdge(data[i]);
        if i < m {
          assert front[i] == data[i];
        }
      }
    }
  }

  /** The node list holds every name of a qualifying record exactly once, in
      the order of the first `add_node` call naming it. */
  lemma {:induction false} NodesFirstSeen(data: seq<Record>)
    ensures ListsFirstSeen(NodesOf(data), Mentions(data))
  {
    if data != [] {
      var m := |data| - 1;
      var r := data[m];
      NodesFirstSeen(data[..m]);
      if Qualifies(r) {
        var a, b := r.nameA.value, r.nameB.value;
        var before := Mentions(data[..m]);
        WithNodeFirstSeen(NodesOf(data[..m]), before, a);
        WithNodeFirstSeen(WithNode(NodesOf(data[..m]), a), before + [a], b);
        assert before + [a] + [b] == Mentions(data);
      }
    }
  }

  /** The node set is exactly the set of names of the qualifying records, each
      occurring once. */
  lemma NodesExact(data: seq<Record>)
    ensures NoDuplicates(NodesOf(data))
    ensures forall n :: n in NodesOf(data) <==> Named(data, n)
  {
    NodesFirstSeen(data);
    forall n
      ensures n in NodesOf(data) <==> Named(data, n)
    {
      MentionsNamed(data, n);
    }
  }

  /** The edges are exactly the pairs of the qualifying records, whichever way
      round each record names its pair. */
  lemma {:induction false} EdgesExact(data: seq<Record>, e: Edge)
    ensures e in EdgesOf(data) <==> exists i :: 0 <= i < |data| && Qualifies(data[i]) && RecordEdge(data[i]) == e
  {
    if data != [] {
      var m := |data| - 1;
      var front := data[..m];
      EdgesExact(front, e);
      if e in EdgesOf(front) {
        var i :| 0 <= i < |front| && Qualifies(front[i]) && RecordEdge(front[i]) == e;
        assert data[i] == front[i];
      }
      if exists i :: 0 <= i < |data| && Qualifies(data[i]) && RecordEdge(data[i]) == e {
        var i :| 0 <= i < |data| && Qualifies(data[i]) && RecordEdge(data[i]) == e;
        if i < m {
          assert front[i] == data[i];
        }
      }
    }
  }

  /** Records naming a pair already present add no edge, so there are no more
      edges than qualifying records. */
  lemma {:induction false} EdgeCountBound(data: seq<Record>)
    ensures |EdgesOf(data)| <= QualifyingCount(data)
  {
    if data != [] {
      var m := |data| - 1;
      EdgeCountBound(data[..m]);
      if Qualifies(data[m]) {
        var before := EdgesOf(data[..m]);
        assert EdgesOf(data).Keys == before.Keys + {RecordEdge(data[m])};
        assert |before.Keys + {RecordEdge(data[m])}| <= |before.Keys| + 1;
      }
    }
  }

  /** The weight of an edge is the score (0 when missing) of the last
      qualifying record that names its pair. */
  lemma {:induction false} LastWriteWins(data: seq<Record>, e: Edge) returns (i: nat)
    requires e in EdgesOf(data)
    ensures i < |data| && Qualifies(data[i]) && RecordEdge(data[i]) == e
    ensures EdgesOf(data)[e] == ScoreOrZero(data[i])
    ensures forall j :: i < j < |data| && Qualifies(data[j]) ==> RecordEdge(data[j]) != e
  {
    var m := |data| - 1;
    var front := data[..m];
    if Qualifies(data[m]) && RecordEdge(data[m]) == e {
      i := m;
    } else {
      i := LastWriteWins(front, e);
      assert data[i] == front[i];
      assert forall j :: i < j < m ==> data[j] == front[j];
    }
  }

  /** The body of the loop in `build_network`: a record with both names adds
      them as nodes and sets the weight of their pair; any other record leaves
      the graph as it was. */
  method AddInteraction(g: Graph, r: Record)
    requires g.Valid()
    modifies g
    ensures g.Valid()
    ensures Qualifies(r) ==> g.nodes == WithNode(WithNode(old(g.nodes), r.nameA.value), r.nameB.value)
    ensures Qualifies(r) ==> g.weights == old(g.weights)[RecordEdge(r) := ScoreOrZero(r)]
    ensures !Qualifies(r) ==> g.nodes == old(g.nodes) && g.weights == old(g.weights)
  {
    var a, b := r.nameA, r.nameB;
    if Truthy(a) && Truthy(b) {
      g.AddNode(a.value);
      g.AddNode(b.value);
      g.AddEdge(a.value, b.value, ScoreOrZero(r));
    }
  }

  /** `build_network` without the plotting: a fresh graph holding the nodes and
      edges of `data`, and the main-protein set. */
  method BuildNetwork(data: seq<Record>, proteinNames: seq<string>) returns (g: Graph, mainProteins: set<string>)
    ensures fresh(g) && g.Valid()
    ensures g.nodes == NodesOf(data) && g.weights == EdgesOf(data)
    ensures mainProteins == MainProteins(proteinNames)
  {
    g := new Graph();
    mainProteins := MainProteins(proteinNames);
    for i := 0 to |data|
      invariant g.Valid()
      invariant g.nodes == NodesOf(data[..i])
      invariant g.weights == EdgesOf(data[..i])
    {
      assert data[..i + 1][..i] == data[..i];
      AddInteraction(g, data[i]);
    }
    assert data[..|data|] == data;
  }
}
