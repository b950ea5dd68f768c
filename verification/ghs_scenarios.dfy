/**
 * The graphs of src/base/test_GHS.py, built with `Node` and `GHS` and run to
 * the end. Each scenario returns the fragment ids of its nodes in list order,
 * and its contract states the outcome the test expects. The letters A to I of
 * the tests become the ids 1 to 9, and the chain's `N<i>` becomes `i`, so that
 * the order of the ids is the order of the names.
 */
module GHSScenarios {
  import opened BaseGHS

  /** Some member of the fragment of `frags[k]` has that id as its own node id. */
  lemma LedByMember(ids: seq<int>, frags: seq<int>, k: nat)
    requires Canonical(ids, frags) && k < |frags|
    ensures frags[k] <= ids[k]
    ensures exists j :: 0 <= j < |ids| && ids[j] == frags[k]
  {
    assert Led(ids, frags, frags[k]);
  }

  /**
   * The four-node graph A-B (1), A-C (3), B-C (2), B-D (4), each edge listed at
   * both ends, as the list `[A, B, C, D]` (src/base/test_GHS.py:8-22).
   */
  method BuildSimpleGraph() returns (ns: seq<Node>)
    ensures |ns| == 4 && forall k :: 0 <= k < 4 ==> fresh(ns[k]) && ns[k].id == ns[k].fragmentId == k + 1
    ensures ns[0].neighbors == [Edge(ns[1], 1), Edge(ns[2], 3)]
    ensures ns[1].neighbors == [Edge(ns[0], 1), Edge(ns[2], 2), Edge(ns[3], 4)]
    ensures ns[2].neighbors == [Edge(ns[0], 3), Edge(ns[1], 2)]
    ensures ns[3].neighbors == [Edge(ns[1], 4)]
    ensures forall k, e :: 0 <= k < 4 && e in ns[k].neighbors ==> e.to in ns
  {
    var a := new Node(1);
    var b := new Node(2);
    var c := new Node(3);
    var d := new Node(4);
    a.AddNeighbor(b, 1);
    a.AddNeighbor(c, 3);
    b.AddNeighbor(a, 1);
    b.AddNeighbor(c, 2);
    b.AddNeighbor(d, 4);
    c.AddNeighbor(a, 3);
    c.AddNeighbor(b, 2);
    d.AddNeighbor(b, 4);
    ns := [a, b, c, d];
  }

  /** What `Run` promises forces the four-node graph into one fragment with id 1. */
  lemma SimpleGraphOutcome(frags: seq<int>, links: set<(int, int)>)
    requires Kept([1, 2, 3, 4], frags, [1, 2, 3, 4], links) && NoCrossing(frags, links)
    requires (0, 1) in links && (0, 2) in links && (1, 3) in links
    ensures frags == [1, 1, 1, 1]
  {
    SingletonsStayCanonical([1, 2, 3, 4], frags, links);
    LedByMember([1, 2, 3, 4], frags, 0);
    assert frags[0] == frags[1] == frags[2] == frags[3];
  }

  /** Running the four-node graph leaves every node in A's fragment (src/base/test_GHS.py:44-52). */
  method SimpleGraph() returns (finalIds: seq<int>)
    ensures finalIds == [1, 1, 1, 1]
  {
    var ns := BuildSimpleGraph();
    var ghs := new GHS(ns);
    assert ghs.Frags() == ghs.Ids() == [1, 2, 3, 4];
    ghost var links := ghs.Links();
    assert LeadsTo(ghs.Graph()[0], ns[1]) && LeadsTo(ghs.Graph()[0], ns[2]) && LeadsTo(ghs.Graph()[1], ns[3]) by {
      assert ghs.Graph()[0][0].to == ns[1] && ghs.Graph()[0][1].to == ns[2] && ghs.Graph()[1][2].to == ns[3];
    }
    assert (0, 1) in links && (0, 2) in links && (1, 3) in links;
    ghs.Run();
    SimpleGraphOutcome(ghs.Frags(), links);
    finalIds := ghs.Frags();
  }

  /** What `Run` promises keeps two nodes without links apart. */
  lemma DisconnectedGraphOutcome(start: seq<int>, frags: seq<int>, ids: seq<int>, links: set<(int, int)>)
    requires Kept(start, frags, ids, links)
    requires start == [5, 6] && ids == [5, 6] && links == {}
    ensures frags == [5, 6]
  {
    SingletonsStayCanonical([5, 6], frags, links);
    assert Respects([0, 1], links) && Within([0, 1], [5, 6]);
    assert Within([0, 1], frags);
    LedByMember([5, 6], frags, 0);
    LedByMember([5, 6], frags, 1);
  }

  /** The two nodes E and F without edges, as the list `[E, F]` (src/base/test_GHS.py:25-28). */
  method BuildDisconnectedGraph() returns (ns: seq<Node>)
    ensures |ns| == 2 && forall k :: 0 <= k < 2 ==> fresh(ns[k]) && ns[k].id == ns[k].fragmentId == k + 5
    ensures ns[0].neighbors == [] && ns[1].neighbors == []
  {
    var e := new Node(5);
    var f := new Node(6);
    ns := [e, f];
  }

  /** Two nodes E and F without edges keep their own ids (src/base/test_GHS.py:54-62). */
  method DisconnectedGraph() returns (finalIds: seq<int>)
    ensures finalIds == [5, 6]
  {
    var ns := BuildDisconnectedGraph();
    var ghs := new GHS(ns);
    ghost var start := ghs.Frags();
    assert start == ghs.Ids() == [5, 6];
    assert ghs.Graph() == [[], []];
    assert ghs.Links() == {};
    ghs.Run();
    DisconnectedGraphOutcome(start, ghs.Frags(), ghs.Ids(), ghs.Links());
    finalIds := ghs.Frags();
  }

  /**
   * The triangle G-H (1), G-I (5), H-I (2), each edge listed at both ends, as
   * the list `[G, H, I]` (src/base/test_GHS.py:31-42).
   */
  method BuildTriangleGraph() returns (ns: seq<Node>)
    ensures |ns| == 3 && forall k :: 0 <= k < 3 ==> fresh(ns[k]) && ns[k].id == ns[k].fragmentId == k + 7
    ensures ns[0].neighbors == [Edge(ns[1], 1), Edge(ns[2], 5)]
    ensures ns[1].neighbors == [Edge(ns[0], 1), Edge(ns[2], 2)]
    ensures ns[2].neighbors == [Edge(ns[0], 5), Edge(ns[1], 2)]
    ensures forall k, e :: 0 <= k < 3 && e in ns[k].neighbors ==> e.to in ns
  {
    var g := new Node(7);
    var h := new Node(8);
    var i := new Node(9);
    g.AddNeighbor(h, 1);
    g.AddNeighbor(i, 5);
    h.AddNeighbor(g, 1);
    h.AddNeighbor(i, 2);
    i.AddNeighbor(g, 5);
    i.AddNeighbor(h, 2);
    ns := [g, h, i];
  }

  /** What `Run` promises forces the triangle into one fragment with id 7. */
  lemma TriangleGraphOutcome(frags: seq<int>, links: set<(int, int)>)
    requires Kept([7, 8, 9], frags, [7, 8, 9], links) && NoCrossing(frags, links)
    requires (0, 1) in links && (0, 2) in links
    ensures frags == [7, 7, 7]
  {
    SingletonsStayCanonical([7, 8, 9], frags, links);
    LedByMember([7, 8, 9], frags, 0);
    assert frags[0] == frags[1] == frags[2];
  }

  /** Running the triangle leaves every node in G's fragment (src/base/test_GHS.py:66-74). */
  method TriangleGraph() returns (finalIds: seq<int>)
    ensures finalIds == [7, 7, 7]
  {
    var ns := BuildTriangleGraph();
    var ghs := new GHS(ns);
    assert ghs.Frags() == ghs.Ids() == [7, 8, 9];
    ghost var links := ghs.Links();
    assert LeadsTo(ghs.Graph()[0], ns[1]) && LeadsTo(ghs.Graph()[0], ns[2]) by {
      assert ghs.Graph()[0][0].to == ns[1] && ghs.Graph()[0][1].to == ns[2];
    }
    assert (0, 1) in links && (0, 2) in links;
    ghs.Run();
    TriangleGraphOutcome(ghs.Frags(), links);
    finalIds := ghs.Frags();
  }

  /**
   * A chain of `n` new nodes with ids `0 .. n - 1`, where the edge between
   * `i` and `i + 1` weighs `i + 1` and is listed at both ends
   * (src/base/test_GHS.py:79-84).
   */
  method BuildChain(n: nat) returns (ns: seq<Node>)
    ensures |ns| == n
    ensures forall k :: 0 <= k < n ==> fresh(ns[k]) && ns[k].id == k && ns[k].fragmentId == k
    ensures forall k :: 0 <= k < n ==> ns[k].neighbors == ChainEdges(ns, k)
    ensures forall k, e :: 0 <= k < n && e in ns[k].neighbors ==> e.to in ns
  {
    ns := [];
    for i := 0 to n
      invariant |ns| == i
      invariant forall k :: 0 <= k < i ==> fresh(ns[k]) && ns[k].id == k && ns[k].fragmentId == k && ns[k].neighbors == []
      invariant forall a, b :: 0 <= a < b < i ==> ns[a] != ns[b]
    {
      var node := new Node(i);
      ns := ns + [node];
    }
    LinkChain(ns);
    forall k, e | 0 <= k < n && e in ns[k].neighbors ensures e.to in ns {
      ChainEdgesWithin(ns, k, e);
    }
  }

  /**
   * The loop of src/base/test_GHS.py:82-84: links each node of `ns` to the
   * next, adding the edge at both ends.
   */
  method LinkChain(ns: seq<Node>)
    requires forall a, b :: 0 <= a < b < |ns| ==> ns[a] != ns[b]
    requires forall k :: 0 <= k < |ns| ==> ns[k].neighbors == []
    modifies ns`neighbors
    ensures forall k :: 0 <= k < |ns| ==> ns[k].neighbors == ChainEdges(ns, k)
  {
    if ns == [] {
      return;
    }
    for i := 0 to |ns| - 1
      invariant forall k :: 0 <= k < |ns| ==> ns[k].neighbors == ChainSoFar(ns, i, k)
    {
      ns[i].AddNeighbor(ns[i + 1], i + 1);
      ns[i + 1].AddNeighbor(ns[i], i + 1);
      forall k | 0 <= k < |ns| ensures ns[k].neighbors == ChainSoFar(ns, i + 1, k) {
        ChainStep(ns, i, k);
        if k != i && k != i + 1 {
          assert ns[k] != ns[i] && ns[k] != ns[i + 1];
        }
      }
    }
    forall k | 0 <= k < |ns| ensures ns[k].neighbors == ChainEdges(ns, k) {
      ChainDone(ns, k);
    }
  }

  /** Adding link `i` extends the lists at positions `i` and `i + 1` by one edge each. */
  lemma ChainStep(ns: seq<Node>, i: nat, k: nat)
    requires k < |ns| && i + 1 < |ns|
    ensures ChainSoFar(ns, i + 1, k) ==
      if k == i then ChainSoFar(ns, i, k) + [Edge(ns[i + 1], i + 1)]
      else if k == i + 1 then ChainSoFar(ns, i, k) + [Edge(ns[i], i + 1)]
      else ChainSoFar(ns, i, k)
  {
    if k == i {
      assert ChainSoFar(ns, i, k) == (if 0 < k then [Edge(ns[k - 1], k)] else []);
    } else if k == i + 1 {
      assert ChainSoFar(ns, i, k) == [];
    }
  }

  /** With all links added, each position holds the chain's edges. */
  lemma ChainDone(ns: seq<Node>, k: nat)
    requires k < |ns|
    ensures ChainSoFar(ns, |ns| - 1, k) == ChainEdges(ns, k)
  {
  }

  /** Every chain edge leads to a node of the chain. */
  lemma ChainEdgesWithin(ns: seq<Node>, k: nat, e: Edge)
    requires k < |ns| && e in ChainEdges(ns, k)
    ensures e.to in ns
  {
  }

  /** The edges at position `k` once the first `i` links have been added at both ends. */
  function ChainSoFar(ns: seq<Node>, i: nat, k: nat): seq<Edge>
    requires k < |ns| && i < |ns|
  {
    (if 0 < k <= i then [Edge(ns[k - 1], k)] else []) + (if k < i then [Edge(ns[k + 1], k + 1)] else [])
  }

  /**
   * The edges the chain lists at position `k`: the one back to `k - 1`, then
   * the one on to `k + 1`, each where that neighbour exists.
   */
  function ChainEdges(ns: seq<Node>, k: nat): seq<Edge>
    requires k < |ns|
  {
    (if k > 0 then [Edge(ns[k - 1], k)] else []) + (if k + 1 < |ns| then [Edge(ns[k + 1], k + 1)] else [])
  }

  /** The link from position `k` to the next one. */
  function Next(k: int): (int, int)
  {
    (k, k + 1)
  }

  /** The chain's neighbour lists link every position to the next. */
  lemma ChainLinks(ns: seq<Node>, adj: seq<seq<Edge>>)
    requires |adj| == |ns| && forall k :: 0 <= k < |ns| ==> adj[k] == ChainEdges(ns, k)
    ensures forall k :: 0 <= k < |ns| - 1 ==> Next(k) in LinksOf(ns, adj)
  {
    forall k | 0 <= k < |ns| - 1 ensures Next(k) in LinksOf(ns, adj) {
      assert adj[k][if k > 0 then 1 else 0].to == ns[k + 1];
    }
  }

  /** What `Run` promises forces a chain of ids `0 .. n - 1` into one fragment with id 0. */
  lemma ChainOutcome(ids: seq<int>, frags: seq<int>, links: set<(int, int)>)
    requires forall k :: 0 <= k < |ids| ==> ids[k] == k
    requires Kept(ids, frags, ids, links) && NoCrossing(frags, links)
    requires forall k :: 0 <= k < |ids| - 1 ==> Next(k) in links
    ensures |frags| == |ids| && forall k :: 0 <= k < |frags| ==> frags[k] == 0
  {
    SingletonsStayCanonical(ids, frags, links);
    if ids != [] {
      forall k | 0 <= k < |frags| - 1 ensures frags[k] == frags[k + 1] {
        assert Next(k) in links;
      }
      ChainAllEqual(frags);
      LedByMember(ids, frags, 0);
    }
  }

  /** A run over a new chain of `n` nodes, before it starts. */
  method NewChainRun(n: nat) returns (ghs: GHS)
    ensures |ghs.nodes| == n && forall k :: 0 <= k < n ==> fresh(ghs.nodes[k]) && ghs.Ids()[k] == k
    ensures ghs.Frags() == ghs.Ids() && ghs.Closed()
    ensures forall k :: 0 <= k < n - 1 ==> Next(k) in ghs.Links()
  {
    var ns := BuildChain(n);
    ghs := new GHS(ns);
    assert ghs.Frags() == ghs.Ids();
    ChainLinks(ns, ghs.Graph());
  }

  /** Running the chain leaves every node in the fragment of node 0 (src/base/test_GHS.py:76-92). */
  method ChainGraph(n: nat) returns (finalIds: seq<int>)
    ensures |finalIds| == n && forall k :: 0 <= k < n ==> finalIds[k] == 0
  {
    var ghs := NewChainRun(n);
    ghost var links := ghs.Links();
    ghs.Run();
    ChainOutcome(ghs.Ids(), ghs.Frags(), links);
    finalIds := ghs.Frags();
  }
}
