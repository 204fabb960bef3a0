/** The part of an undirected networkx graph that pronet relies on: nodes kept
    in insertion order, and at most one weighted edge per unordered pair of
    nodes. */
module Graphs {
  import opened Records

  /** An unordered pair of nodes: the set of its endpoints, a single name for a
      self-loop. */
  type Edge = set<string>

  function EdgeOf(a: string, b: string): Edge {
    {a, b}
  }

  ghost predicate NoDuplicates(s: seq<string>) {
    forall i, j :: 0 <= i < j < |s| ==> s[i] != s[j]
  }

  /** The node list after `add_node(n)`: a new node goes to the end, a known
      node stays where it is. */
  function WithNode(nodes: seq<string>, n: string): (r: seq<string>)
    ensures n in r
    ensures forall m :: m in r <==> m in nodes || m == n
    ensures nodes <= r && |r| <= |nodes| + 1
    ensures NoDuplicates(nodes) ==> NoDuplicates(r)
  {
    if n in nodes then nodes else nodes + [n]
  }

  /** The nodes adjacent to `n`; `n` itself when it carries a self-loop. */
  function Neighbours(weights: map<Edge, Score>, n: string): (r: set<string>)
    ensures forall m :: m in r <==> EdgeOf(n, m) in weights
  {
    var r := set e, m | e in weights && m in e && e == EdgeOf(n, m) :: m;
    assert forall m :: EdgeOf(n, m) in weights ==> m in r by {
      forall m | EdgeOf(n, m) in weights
        ensures m in r
      {
        var e := EdgeOf(n, m);
        assert m in e;
      }
    }
    r
  }

  /** networkx's degree: the number of neighbours, where a self-loop counts
      twice. */
  function Degree(weights: map<Edge, Score>, n: string): nat {
    |Neighbours(weights, n)| + if EdgeOf(n, n) in weights then 1 else 0
  }

  /** `sum(d for v, d in G.degree())`, over the nodes in order. */
  function DegreeSum(nodes: seq<string>, weights: map<Edge, Score>): nat {
    if nodes == [] then 0
    else DegreeSum(nodes[..|nodes| - 1], weights) + Degree(weights, nodes[|nodes| - 1])
  }

  /** Every edge is a pair of nodes of the list. */
  ghost predicate EdgesBetween(nodes: seq<string>, weights: map<Edge, Score>) {
    && (forall e, n | e in weights && n in e :: n in nodes)
    && (forall e | e in weights :: exists a, b :: e == EdgeOf(a, b))
  }

  /** How often `x` occurs in `s`. */
  function Occurrences(s: seq<string>, x: string): nat {
    if s == [] then 0
    else Occurrences(s[..|s| - 1], x) + if s[|s| - 1] == x then 1 else 0
  }

  lemma {:induction false} OccursOnce(s: seq<string>, x: string)
    requires NoDuplicates(s) && x in s
    ensures Occurrences(s, x) == 1
  {
    var n := |s| - 1;
    if s[n] == x {
      NotOccurring(s[..n], x);
    } else {
      assert x in s[..n] by {
        var i :| 0 <= i < |s| && s[i] == x;
        assert s[..n][i] == x;
      }
      OccursOnce(s[..n], x);
    }
  }

  lemma {:induction false} NotOccurring(s: seq<string>, x: string)
    requires x !in s
    ensures Occurrences(s, x) == 0
  {
    if s != [] {
      NotOccurring(s[..|s| - 1], x);
    }
  }

  /** Without edges every degree is 0. */
  lemma {:induction false} DegreeSumNoEdges(nodes: seq<string>)
    ensures DegreeSum(nodes, map[]) == 0
  {
    if nodes != [] {
      DegreeSumNoEdges(nodes[..|nodes| - 1]);
      assert Neighbours(map[], nodes[|nodes| - 1]) == {};
    }
  }

  /** Removing the edge `{a, b}` takes `b` from the neighbours of `a`, `a`
      from those of `b`, and changes no other neighbours. */
  lemma NeighboursWithoutEdge(weights: map<Edge, Score>, a: string, b: string, n: string)
    requires EdgeOf(a, b) in weights
    ensures n == a ==> Neighbours(weights, n) == Neighbours(weights - {EdgeOf(a, b)}, n) + {b}
    ensures n == b ==> Neighbours(weights, n) == Neighbours(weights - {EdgeOf(a, b)}, n) + {a}
    ensures n != a && n != b ==> Neighbours(weights, n) == Neighbours(weights - {EdgeOf(a, b)}, n)
  {
  }

  /** Removing the edge `{a, b}` lowers the degree of `a` and of `b` by one
      each, so that of `a` by two when `a == b`, and no other degree. */
  lemma DegreeWithoutEdge(weights: map<Edge, Score>, a: string, b: string, n: string)
    requires EdgeOf(a, b) in weights
    ensures Degree(weights, n) ==
            Degree(weights - {EdgeOf(a, b)}, n) + (if n == a then 1 else 0) + (if n == b then 1 else 0)
  {
    var rest := weights - {EdgeOf(a, b)};
    NeighboursWithoutEdge(weights, a, b, n);
    if n == a {
      assert b !in Neighbours(rest, n);
    }
    if n == b {
      assert EdgeOf(n, a) == EdgeOf(a, b);
      assert a !in Neighbours(rest, n);
    }
    if n == a && n == b {
      assert EdgeOf(n, n) in weights && EdgeOf(n, n) !in rest;
    } else if n == a || n == b {
      assert EdgeOf(n, n) != EdgeOf(a, b);
    } else {
      assert EdgeOf(n, n) != EdgeOf(a, b) by {
        assert a !in EdgeOf(n, n);
      }
    }
  }

  lemma {:induction false} DegreeSumWithoutEdge(nodes: seq<string>, weights: map<Edge, Score>, a: string, b: string)
    requires EdgeOf(a, b) in weights
    ensures DegreeSum(nodes, weights) ==
            DegreeSum(nodes, weights - {EdgeOf(a, b)}) + Occurrences(nodes, a) + Occurrences(nodes, b)
  {
    if nodes != [] {
      DegreeSumWithoutEdge(nodes[..|nodes| - 1], weights, a, b);
      DegreeWithoutEdge(weights, a, b, nodes[|nodes| - 1]);
    }
  }

  /** The handshake lemma: every edge adds two to the degree sum, a self-loop
      as well, so half the degree sum is the number of edges. */
  lemma {:induction false} Handshake(nodes: seq<string>, weights: map<Edge, Score>)
    requires NoDuplicates(nodes) && EdgesBetween(nodes, weights)
    ensures DegreeSum(nodes, weights) == 2 * |weights|
    decreases |weights|
  {
    if weights == map[] {
      DegreeSumNoEdges(nodes);
    } else {
      var e :| e in weights;
      var a, b :| e == EdgeOf(a, b);
      var rest := weights - {e};
      assert rest.Keys == weights.Keys - {e};
      assert |rest| == |weights| - 1;
      Handshake(nodes, rest);
      DegreeSumWithoutEdge(nodes, weights, a, b);
      assert a in e && b in e;
      OccursOnce(nodes, a);
      OccursOnce(nodes, b);
    }
  }

  class Graph {
    /** `G.nodes()`, in insertion order */
    var nodes: seq<string>
    /** `G.edges(data='weight')`, keyed on the unordered pair */
    var weights: map<Edge, Score>

    /** Every node occurs once and every edge joins two nodes of the graph. */
    ghost predicate Valid()
      reads this
    {
      NoDuplicates(nodes) && EdgesBetween(nodes, weights)
    }

    /** `G.number_of_edges()`, which networkx computes as half the degree
        sum: the number of distinct pairs. */
    function NumberOfEdges(): (k: nat)
      reads this
      requires Valid()
      ensures k == |weights|
    {
      Handshake(nodes, weights);
      DegreeSum(nodes, weights) / 2
    }

    /** `nx.Graph()` */
    constructor ()
      ensures Valid()
      ensures nodes == [] && weights == map[]
    {
      nodes := [];
      weights := map[];
    }

    /** `G.add_node(n)` */
    method AddNode(n: string)
      requires Valid()
      modifies this
      ensures Valid()
      ensures nodes == WithNode(old(nodes), n)
      ensures weights == old(weights)
    {
      if n !in nodes {
        nodes := nodes + [n];
      }
    }

    /** `G.add_edge(a, b, weight=w)`: adds the endpoints that are missing, then
        sets the weight of the pair, replacing any earlier weight whichever way
        round the pair was added. */
    method AddEdge(a: string, b: string, w: Score)
      requires Valid()
      modifies this
      ensures Valid()
      ensures nodes == WithNode(WithNode(old(nodes), a), b)
      ensures weights == old(weights)[EdgeOf(a, b) := w]
      ensures weights.Keys == old(weights).Keys + {EdgeOf(b, a)}
    {
      AddNode(a);
      AddNode(b);
      weights := weights[EdgeOf(a, b) := w];
      assert EdgeOf(a, b) == EdgeOf(b, a);
    }
  }
}
