/**
 * The graph the generator grows, reduced to what the generator uses of it:
 * a set of node identifiers and a set of undirected edges, with the
 * add-node and add-edge operations. It stands in for the networkx graph
 * object; the seed graph is the complete graph on the nodes 0 .. m.
 */
module Graphs {
  import opened Seqs

  /** An undirected edge; Mk stores the smaller end in lo. */
  datatype Edge = Edge(lo: nat, hi: nat)

  /** The edge between u and v, whichever end is given first. */
  function Mk(u: nat, v: nat): (e: Edge)
    ensures e.lo <= e.hi
    ensures (e.lo == u && e.hi == v) || (e.lo == v && e.hi == u)
  {
    if u <= v then Edge(u, v) else Edge(v, u)
  }

  predicate Touches(e: Edge, v: nat)
  {
    e.lo == v || e.hi == v
  }

  /** The end of e that is not v (v itself for a loop on v). */
  function Other(e: Edge, v: nat): nat
  {
    if e.lo == v then e.hi else e.lo
  }

  function Incident(edges: set<Edge>, v: nat): set<Edge>
  {
    set e | e in edges && Touches(e, v)
  }

  /** The edges from v down to nodes below it (edges store the smaller end in lo). */
  function LowerEdges(edges: set<Edge>, v: nat): set<Edge>
  {
    set e | e in edges && e.hi == v
  }

  /**
   * The degree of v: the number of edges at v. The graphs built here have no
   * self-loops, so this is also networkx's degree.
   */
  function Degree(edges: set<Edge>, v: nat): nat
  {
    |Incident(edges, v)|
  }

  /** The edges from a new node n to each of targets, added in order. */
  function Star(n: nat, targets: seq<nat>): set<Edge>
    decreases |targets|
  {
    if targets == [] then {}
    else Star(n, targets[..|targets| - 1]) + {Mk(n, targets[|targets| - 1])}
  }

  /**
   * The edges of the complete graph on 0 .. k-1, built as networkx builds
   * it: node j joined to every earlier node.
   */
  function CompleteEdges(k: nat): set<Edge>
  {
    if k == 0 then {} else CompleteEdges(k - 1) + Star(k - 1, Iota(k - 1))
  }

  /** Adding one new edge {u, w} raises the degrees of u and w by one and no other. */
  lemma AddEdgeDegree(edges: set<Edge>, u: nat, w: nat, v: nat)
    requires Mk(u, w) !in edges
    ensures Degree(edges + {Mk(u, w)}, v) == Degree(edges, v) + (if v == u || v == w then 1 else 0)
  {
    var e := Mk(u, w);
    if Touches(e, v) {
      assert Incident(edges + {e}, v) == Incident(edges, v) + {e};
    } else {
      assert Incident(edges + {e}, v) == Incident(edges, v);
    }
  }

  /** The star from n holds exactly the edges from n to each target. */
  lemma {:induction false} StarMembers(n: nat, targets: seq<nat>)
    ensures forall x :: x in targets ==> Mk(n, x) in Star(n, targets)
    ensures forall e :: e in Star(n, targets) ==> Other(e, n) in targets && e == Mk(n, Other(e, n))
    decreases |targets|
  {
    if targets != [] {
      var init, last := targets[..|targets| - 1], targets[|targets| - 1];
      assert targets == init + [last];
      StarMembers(n, init);
    }
  }

  /**
   * Joining a node n that no edge touches to distinct targets other than n
   * adds |targets| new edges, raises each target's degree by one and gives n
   * degree |targets|; every other degree is unchanged.
   */
  lemma {:induction false} StarDegrees(edges: set<Edge>, n: nat, targets: seq<nat>)
    requires forall e :: e in edges ==> !Touches(e, n)
    requires n !in targets
    requires Distinct(targets)
    ensures edges !! Star(n, targets)
    ensures |edges + Star(n, targets)| == |edges| + |targets|
    ensures forall v: nat :: Degree(edges + Star(n, targets), v)
                             == Degree(edges, v) + multiset(targets)[v] + (if v == n then |targets| else 0)
    decreases |targets|
  {
    StarMembers(n, targets);
    if targets == [] {
      assert edges + Star(n, targets) == edges;
    } else {
      var init, last := targets[..|targets| - 1], targets[|targets| - 1];
      assert targets == init + [last];
      StarDegrees(edges, n, init);
      StarMembers(n, init);
      var e := Mk(n, last);
      assert Other(e, n) == last;
      assert last !in init;
      assert e !in edges + Star(n, init);
      assert edges + Star(n, targets) == (edges + Star(n, init)) + {e};
      forall v: nat
        ensures Degree(edges + Star(n, targets), v)
                == Degree(edges, v) + multiset(targets)[v] + (if v == n then |targets| else 0)
      {
        AddEdgeDegree(edges + Star(n, init), n, last, v);
      }
    }
  }

  /**
   * A star from n to distinct targets all below n has one edge per target,
   * and every one of its edges has n as its upper end.
   */
  lemma StarBelow(n: nat, targets: seq<nat>)
    requires forall i :: 0 <= i < |targets| ==> targets[i] < n
    requires Distinct(targets)
    ensures |Star(n, targets)| == |targets|
    ensures forall e :: e in Star(n, targets) ==> e.hi == n
  {
    StarMembers(n, targets);
    StarDegrees({}, n, targets);
    assert {} + Star(n, targets) == Star(n, targets);
  }

  /** CompleteEdges(k) holds exactly the pairs i < j of identifiers below k. */
  lemma {:induction false} CompleteEdgesAre(k: nat)
    ensures forall e :: e in CompleteEdges(k) <==> e.lo < e.hi < k
  {
    if k > 0 {
      var j := k - 1;
      CompleteEdgesAre(j);
      StarMembers(j, Iota(j));
      forall e
        ensures e in CompleteEdges(k) <==> e.lo < e.hi < k
      {
        if e.lo < e.hi == j {
          assert Iota(j)[e.lo] == e.lo;
          assert Mk(j, e.lo) == e;
        }
      }
    }
  }

  /**
   * In the complete graph on 0 .. k-1 every node has degree k-1, any other
   * identifier degree 0, and there are k(k-1)/2 edges.
   */
  lemma {:induction false} CompleteDegrees(k: nat)
    ensures forall v: nat :: Degree(CompleteEdges(k), v) == if v < k then k - 1 else 0
    ensures |CompleteEdges(k)| == Triangle(k)
  {
    if k == 0 {
      forall v: nat
        ensures Degree(CompleteEdges(0), v) == 0
      {
        assert Incident({}, v) == {};
      }
    } else {
      var j := k - 1;
      CompleteDegrees(j);
      CompleteEdgesAre(j);
      IotaCount(j);
      StarDegrees(CompleteEdges(j), j, Iota(j));
    }
  }

  /** A mutable simple undirected graph: the networkx graph the generator owns. */
  class Graph {
    var nodes: set<nat>
    var edges: set<Edge>

    /** The seed, nx.complete_graph(m + 1): nodes 0 .. m, every pair joined. */
    constructor Complete(m: nat)
      ensures nodes == Range(m + 1) && edges == CompleteEdges(m + 1)
    {
      nodes := Range(m + 1);
      edges := CompleteEdges(m + 1);
    }

    /** G.add_node(v); adding a present node changes nothing. */
    method AddNode(v: nat)
      modifies this
      ensures nodes == old(nodes) + {v} && edges == old(edges)
    {
      nodes := nodes + {v};
    }

    /** G.add_edge(u, v): adds both ends as nodes; adding a present edge changes nothing. */
    method AddEdge(u: nat, v: nat)
      modifies this
      ensures nodes == old(nodes) + {u, v} && edges == old(edges) + {Mk(u, v)}
    {
      nodes := nodes + {u, v};
      edges := edges + {Mk(u, v)};
    }
  }
}
