/**
 * The sequential fragment merger of src/base/GHS.py.
 *
 * Every node starts as a fragment of its own. `GHS.Run` repeatedly lets each
 * node find its minimum outgoing edge (`Node.FindMoe`) and merges the two
 * fragments at its ends (`GHS.MergeFragments`), relabelling the fragment with
 * the larger id to the smaller one, until a round merges nothing.
 *
 * Node identifiers are modelled as integers: the source only compares them
 * with `min`, `max`, `==` and `<`, so any totally ordered id type behaves the
 * same way.
 *
 * The first half of the module is a value-level model: the fragment ids of the
 * listed nodes as a sequence, the merge as a relabelling of that sequence, and
 * lemmas about it (the canonical-minimum invariant, the drop of one fragment
 * per merge, staying inside connected components). The second half is the
 * object model, whose methods are proved against the first half.
 */
module BaseGHS {
  import opened Wrappers

  // ---------------------------------------------------------------------------
  // Fragment ids as values
  // ---------------------------------------------------------------------------

  function Min(a: int, b: int): int { if a <= b then a else b }
  function Max(a: int, b: int): int { if a <= b then b else a }

  /** The set of distinct fragment ids in `frags`. */
  function Values(frags: seq<int>): set<int>
  {
    set k | 0 <= k < |frags| :: frags[k]
  }

  /** Every fragment id `hi` replaced by `lo`, all others kept. */
  function Relabel(frags: seq<int>, hi: int, lo: int): (r: seq<int>)
    ensures |r| == |frags|
    ensures forall k :: 0 <= k < |r| ==> r[k] != hi || hi == lo
    ensures forall k :: 0 <= k < |r| && frags[k] != hi ==> r[k] == frags[k]
  {
    seq(|frags|, k requires 0 <= k < |frags| => if frags[k] == hi then lo else frags[k])
  }

  /**
   * The fragment ids after merging the fragments of the nodes at positions
   * `i` and `j`: the fragment with the larger id takes the smaller id.
   */
  function Merge(frags: seq<int>, i: nat, j: nat): (r: seq<int>)
    requires i < |frags| && j < |frags|
    ensures |r| == |frags|
    ensures r[i] == r[j] == Min(frags[i], frags[j])
    ensures forall k :: 0 <= k < |frags| ==> r[k] <= frags[k]
    ensures forall k :: 0 <= k < |frags| && r[k] != frags[k] ==> frags[k] == Max(frags[i], frags[j])
  {
    Relabel(frags, Max(frags[i], frags[j]), Min(frags[i], frags[j]))
  }

  /** Some node whose id is `f` carries fragment id `f` itself. */
  ghost predicate Led(ids: seq<int>, frags: seq<int>, f: int)
    requires |ids| == |frags|
  {
    exists j :: 0 <= j < |ids| && ids[j] == f && frags[j] == f
  }

  /**
   * Each fragment id is the smallest node id among the fragment's members:
   * no member has a smaller id, and the member with that id is in it.
   */
  ghost predicate Canonical(ids: seq<int>, frags: seq<int>)
  {
    && |ids| == |frags|
    && (forall k :: 0 <= k < |frags| ==> frags[k] <= ids[k])
    && (forall k :: 0 <= k < |frags| ==> Led(ids, frags, frags[k]))
  }

  /**
   * Fragments never span two classes of `comp`: two nodes that share a
   * fragment id share their `comp` label.
   */
  ghost predicate Within(comp: seq<int>, frags: seq<int>)
  {
    && |comp| == |frags|
    && forall a, b :: 0 <= a < |frags| && 0 <= b < |frags| && frags[a] == frags[b] ==> comp[a] == comp[b]
  }

  /** A fresh set of nodes, each its own fragment, is canonical. */
  lemma SingletonsAreCanonical(ids: seq<int>)
    ensures Canonical(ids, ids)
  {
    forall k | 0 <= k < |ids| ensures Led(ids, ids, ids[k]) {
      assert ids[k] == ids[k];
    }
  }

  /** When all nodes share one fragment, its id is the smallest node id. */
  lemma OneFragmentTakesSmallestId(ids: seq<int>, frags: seq<int>, m: nat)
    requires Canonical(ids, frags) && m < |ids|
    requires forall k :: 0 <= k < |frags| ==> frags[k] == frags[m]
    requires forall k :: 0 <= k < |ids| ==> ids[m] <= ids[k]
    ensures forall k :: 0 <= k < |frags| ==> frags[k] == ids[m]
  {
    assert Led(ids, frags, frags[m]);
    var j :| 0 <= j < |ids| && ids[j] == frags[m] && frags[j] == frags[m];
    assert ids[m] <= ids[j];
  }

  /** A merge keeps every fragment id equal to the smallest id of its members. */
  lemma MergeKeepsCanonical(ids: seq<int>, frags: seq<int>, i: nat, j: nat)
    requires Canonical(ids, frags)
    requires i < |frags| && j < |frags|
    ensures Canonical(ids, Merge(frags, i, j))
  {
    var r := Merge(frags, i, j);
    var hi, lo := Max(frags[i], frags[j]), Min(frags[i], frags[j]);
    assert Led(ids, frags, lo) by {
      if lo == frags[i] { assert Led(ids, frags, frags[i]); } else { assert Led(ids, frags, frags[j]); }
    }
    var w :| 0 <= w < |ids| && ids[w] == lo && frags[w] == lo;
    assert r[w] == lo;
    forall k | 0 <= k < |r| ensures Led(ids, r, r[k]) {
      if frags[k] == hi && hi != lo {
        assert r[k] == lo;
        assert ids[w] == r[k] && r[w] == r[k];
      } else {
        assert r[k] == frags[k];
        assert Led(ids, frags, frags[k]);
        var v :| 0 <= v < |ids| && ids[v] == frags[k] && frags[v] == frags[k];
        assert r[v] == frags[k];
      }
    }
  }

  /** A merge of two different fragments removes exactly one fragment id. */
  lemma MergeDropsOneFragment(frags: seq<int>, i: nat, j: nat)
    requires i < |frags| && j < |frags|
    requires frags[i] != frags[j]
    ensures |Values(Merge(frags, i, j))| == |Values(frags)| - 1
  {
    var r := Merge(frags, i, j);
    var hi, lo := Max(frags[i], frags[j]), Min(frags[i], frags[j]);
    assert Values(r) == Values(frags) - {hi} by {
      forall f | f in Values(r) ensures f in Values(frags) - {hi} {
        var k :| 0 <= k < |r| && r[k] == f;
        if frags[k] == hi {
          assert f == lo;
          if lo == frags[i] { assert frags[i] in Values(frags); } else { assert frags[j] in Values(frags); }
        } else {
          assert frags[k] in Values(frags);
        }
      }
      forall f | f in Values(frags) - {hi} ensures f in Values(r) {
        var k :| 0 <= k < |frags| && frags[k] == f;
        assert r[k] == f;
      }
    }
    assert hi in Values(frags) by {
      if hi == frags[i] { assert frags[i] in Values(frags); } else { assert frags[j] in Values(frags); }
    }
  }

  /**
   * Merging across an edge whose ends carry the same `comp` label keeps every
   * fragment inside one class of `comp`.
   */
  lemma MergeStaysWithin(comp: seq<int>, frags: seq<int>, i: nat, j: nat)
    requires Within(comp, frags)
    requires i < |frags| && j < |frags| && comp[i] == comp[j]
    ensures Within(comp, Merge(frags, i, j))
  {
    var r := Merge(frags, i, j);
    forall a, b | 0 <= a < |r| && 0 <= b < |r| && r[a] == r[b] ensures comp[a] == comp[b] {
      if frags[a] != frags[b] {
        assert frags[a] == frags[i] || frags[a] == frags[j];
        assert frags[b] == frags[i] || frags[b] == frags[j];
      }
    }
  }

  /** `comp` labels positions so that both ends of every link agree. */
  ghost predicate Respects(comp: seq<int>, links: set<(int, int)>)
  {
    forall p :: p in links && 0 <= p.0 < |comp| && 0 <= p.1 < |comp| ==> comp[p.0] == comp[p.1]
  }

  /** No link leaving one of the first `i` positions crosses two fragments. */
  ghost predicate SettledUpTo(frags: seq<int>, links: set<(int, int)>, i: int)
  {
    forall p :: p in links && 0 <= p.0 < i && p.0 < |frags| && 0 <= p.1 < |frags| ==> frags[p.0] == frags[p.1]
  }

  /** No link crosses two fragments. */
  ghost predicate NoCrossing(frags: seq<int>, links: set<(int, int)>)
  {
    SettledUpTo(frags, links, |frags|)
  }

  /**
   * What a run of merges keeps relative to the fragment ids `start` it began
   * with: ids only decrease, the canonical-minimum rule survives, and so does
   * the confinement of fragments to classes of any link-respecting labelling.
   */
  ghost predicate Kept(start: seq<int>, frags: seq<int>, ids: seq<int>, links: set<(int, int)>)
  {
    && |start| == |frags|
    && (forall k :: 0 <= k < |frags| ==> frags[k] <= start[k])
    && (Canonical(ids, start) ==> Canonical(ids, frags))
    && (forall comp :: Respects(comp, links) && Within(comp, start) ==> Within(comp, frags))
  }

  /** A merge across a link keeps everything `Kept` records. */
  lemma MergeAcrossLinkKeeps(start: seq<int>, frags: seq<int>, ids: seq<int>, links: set<(int, int)>, i: nat, j: nat)
    requires Kept(start, frags, ids, links)
    requires i < |frags| && j < |frags| && (i, j) in links
    ensures Kept(start, Merge(frags, i, j), ids, links)
  {
    var r := Merge(frags, i, j);
    if Canonical(ids, start) {
      MergeKeepsCanonical(ids, frags, i, j);
    }
    forall comp | Respects(comp, links) && Within(comp, start) ensures Within(comp, r) {
      MergeStaysWithin(comp, frags, i, j);
    }
  }

  /** A run that started from singleton fragments ends canonical. */
  lemma SingletonsStayCanonical(ids: seq<int>, frags: seq<int>, links: set<(int, int)>)
    requires Kept(ids, frags, ids, links)
    ensures |frags| == |ids| && Canonical(ids, frags)
  {
    SingletonsAreCanonical(ids);
  }

  /** Every step of `steps` is a link between positions below `n`. */
  ghost predicate Across(steps: seq<(int, int)>, links: set<(int, int)>, n: int)
  {
    forall s :: s in steps ==> s in links && 0 <= s.0 < n && 0 <= s.1 < n
  }

  /** The fragment ids after the merges `steps`, in order, starting from `frags`. */
  ghost function MergeAll(frags: seq<int>, steps: seq<(int, int)>): (r: seq<int>)
    requires forall s :: s in steps ==> 0 <= s.0 < |frags| && 0 <= s.1 < |frags|
    ensures |r| == |frags|
  {
    if steps == [] then frags
    else
      var last := steps[|steps| - 1];
      Merge(MergeAll(frags, steps[..|steps| - 1]), last.0, last.1)
  }

  /** Appending one more merge across a link. */
  lemma MergeAllSnoc(start: seq<int>, steps: seq<(int, int)>, links: set<(int, int)>, i: nat, j: nat)
    requires Across(steps, links, |start|) && (i, j) in links && i < |start| && j < |start|
    ensures Across(steps + [(i, j)], links, |start|)
    ensures MergeAll(start, steps + [(i, j)]) == Merge(MergeAll(start, steps), i, j)
  {
    assert (steps + [(i, j)])[..|steps|] == steps;
  }

  /** Any sequence of merges across links keeps everything `Kept` records. */
  lemma {:induction false} MergesAcrossLinksKeep(start: seq<int>, steps: seq<(int, int)>, ids: seq<int>, links: set<(int, int)>)
    requires Across(steps, links, |start|)
    ensures Kept(start, MergeAll(start, steps), ids, links)
  {
    if steps != [] {
      var prefix, last := steps[..|steps| - 1], steps[|steps| - 1];
      assert forall s :: s in prefix ==> s in steps;
      MergesAcrossLinksKeep(start, prefix, ids, links);
      MergeAcrossLinkKeeps(start, MergeAll(start, prefix), ids, links, last.0, last.1);
    }
  }

  /** Equal neighbours along a chain make the whole chain equal. */
  lemma {:induction false} ChainAllEqual(s: seq<int>)
    requires forall k :: 0 <= k < |s| - 1 ==> s[k] == s[k + 1]
    ensures forall k :: 0 <= k < |s| ==> s[k] == s[0]
  {
    if |s| > 1 {
      ChainAllEqual(s[..|s| - 1]);
      assert s[|s| - 2] == s[|s| - 1];
    }
  }

  // ---------------------------------------------------------------------------
  // Nodes, edges and the minimum outgoing edge
  // ---------------------------------------------------------------------------

  /** One entry of a neighbour list: the neighbour object and the edge weight. */
  datatype Edge = Edge(to: Node, weight: int)

  /** The edge leads into another fragment than `f`. */
  predicate Outgoing(e: Edge, f: int)
    reads e.to`fragmentId
  {
    e.to.fragmentId != f
  }

  /**
   * What the scan at GHS.py:20-24 leaves in its accumulator after reading
   * `edges` from left to right: the last edge to another fragment whose weight
   * is strictly below every outgoing weight seen before it.
   */
  ghost function Cheapest(edges: seq<Edge>, f: int): (r: Option<Edge>)
    reads (set e | e in edges :: e.to)`fragmentId
    ensures r.Some? ==> r.value in edges && Outgoing(r.value, f)
  {
    if edges == [] then None
    else
      var prev := Cheapest(edges[..|edges| - 1], f);
      var e := edges[|edges| - 1];
      if Outgoing(e, f) && (prev.None? || e.weight < prev.value.weight) then Some(e) else prev
  }

  /**
   * Position `k` holds the first cheapest outgoing edge: it is outgoing, no
   * outgoing edge is cheaper, and every outgoing edge before it is dearer.
   */
  ghost predicate FirstCheapestAt(edges: seq<Edge>, f: int, k: int)
    reads (set e | e in edges :: e.to)`fragmentId
  {
    && 0 <= k < |edges|
    && Outgoing(edges[k], f)
    && (forall j :: 0 <= j < |edges| && Outgoing(edges[j], f) ==> edges[k].weight <= edges[j].weight)
    && (forall j :: 0 <= j < k && Outgoing(edges[j], f) ==> edges[k].weight < edges[j].weight)
  }

  /**
   * The scan finds nothing exactly when no edge leaves the fragment, and
   * otherwise finds the first cheapest outgoing edge.
   */
  lemma {:induction false} CheapestIsFirstMinimum(edges: seq<Edge>, f: int)
    ensures Cheapest(edges, f).None? <==> forall j :: 0 <= j < |edges| ==> !Outgoing(edges[j], f)
    ensures Cheapest(edges, f).Some? ==>
      exists k :: FirstCheapestAt(edges, f, k) && Cheapest(edges, f).value == edges[k]
  {
    if edges != [] {
      var p := edges[..|edges| - 1];
      var e := edges[|edges| - 1];
      CheapestIsFirstMinimum(p, f);
      var prev := Cheapest(p, f);
      assert forall j :: 0 <= j < |p| ==> p[j] == edges[j];
      if Outgoing(e, f) && (prev.None? || e.weight < prev.value.weight) {
        if prev.Some? {
          var k :| FirstCheapestAt(p, f, k) && prev.value == p[k];
        }
        assert FirstCheapestAt(edges, f, |edges| - 1);
      } else if prev.Some? {
        var k :| FirstCheapestAt(p, f, k) && prev.value == p[k];
        assert FirstCheapestAt(edges, f, k);
      }
    }
  }

  /** A node of src/base/GHS.py. */
  class Node {
    const id: int
    var fragmentId: int
    var neighbors: seq<Edge>
    var moe: Option<Edge>

    /** A new node is a fragment of its own, has no neighbours and no MOE. */
    constructor (id: int)
      ensures this.id == id && fragmentId == id
      ensures neighbors == [] && moe == None
    {
      this.id := id;
      fragmentId := id;
      neighbors := [];
      moe := None;
    }

    /** Appends an edge to `neighbor`; edges are directed, as in the source. */
    method AddNeighbor(neighbor: Node, weight: int)
      modifies this`neighbors
      ensures neighbors == old(neighbors) + [Edge(neighbor, weight)]
    {
      neighbors := neighbors + [Edge(neighbor, weight)];
    }

    /**
     * Scans the neighbour list for the cheapest edge into another fragment.
     * The result is recorded in `moe` only when there is one.
     */
    method FindMoe() returns (r: Option<Edge>)
      modifies this`moe
      ensures r == Cheapest(neighbors, fragmentId)
      ensures r.None? <==> forall e :: e in neighbors ==> e.to.fragmentId == fragmentId
      ensures r.Some? ==> exists k :: FirstCheapestAt(neighbors, fragmentId, k) && r.value == neighbors[k]
      ensures moe == if r.None? then old(moe) else r
    {
      var best: Option<Edge> := None;
      for i := 0 to |neighbors|
        invariant best == Cheapest(neighbors[..i], fragmentId)
      {
        var e := neighbors[i];
        assert neighbors[..i + 1][..i] == neighbors[..i];
        if fragmentId != e.to.fragmentId {
          if best.None? || e.weight < best.value.weight {
            best := Some(e);
          }
        }
      }
      assert neighbors[..|neighbors|] == neighbors;
      CheapestIsFirstMinimum(neighbors, fragmentId);
      assert forall e :: e in neighbors ==> exists j :: 0 <= j < |neighbors| && neighbors[j] == e;
      if best.None? {
        return None;
      }
      moe := best;
      r := moe;
    }
  }

  /** The fragment ids of `ns`, in order. */
  function FragmentIdsOf(ns: seq<Node>): (r: seq<int>)
    reads ns`fragmentId
    ensures |r| == |ns| && forall k :: 0 <= k < |ns| ==> r[k] == ns[k].fragmentId
  {
    if ns == [] then [] else FragmentIdsOf(ns[..|ns| - 1]) + [ns[|ns| - 1].fragmentId]
  }

  /** Some edge of `edges` leads to `m`. */
  predicate LeadsTo(edges: seq<Edge>, m: Node)
  {
    exists k :: 0 <= k < |edges| && edges[k].to == m
  }

  /** The neighbour lists of `ns`, in order. */
  ghost function NeighborListsOf(ns: seq<Node>): (r: seq<seq<Edge>>)
    reads ns`neighbors
    ensures |r| == |ns| && forall k :: 0 <= k < |ns| ==> r[k] == ns[k].neighbors
  {
    if ns == [] then [] else NeighborListsOf(ns[..|ns| - 1]) + [ns[|ns| - 1].neighbors]
  }

  /** The links `(a, b)` of the graph: `adj[a]`, the edges of `ns[a]`, has one to `ns[b]`. */
  ghost function LinksOf(ns: seq<Node>, adj: seq<seq<Edge>>): set<(int, int)>
    requires |adj| == |ns|
  {
    set a, b | 0 <= a < |ns| && 0 <= b < |ns| && LeadsTo(adj[a], ns[b]) :: (a, b)
  }

  /** Every edge in `adj` leads to a node of `ns`. */
  ghost predicate ClosedOf(ns: seq<Node>, adj: seq<seq<Edge>>)
  {
    forall k, e :: 0 <= k < |adj| && e in adj[k] ==> e.to in ns
  }

  // ---------------------------------------------------------------------------
  // The driver
  // ---------------------------------------------------------------------------

  /** The merger over a fixed list of nodes (src/base/GHS.py:33-84). */
  class GHS {
    const nodes: seq<Node>

    constructor (nodes: seq<Node>)
      ensures this.nodes == nodes
    {
      this.nodes := nodes;
    }

    /** The node ids, in list order. */
    ghost function Ids(): seq<int>
      reads this
    {
      seq(|nodes|, k requires 0 <= k < |nodes| => nodes[k].id)
    }

    /** The current fragment ids, in list order. */
    function Frags(): (r: seq<int>)
      reads this, nodes`fragmentId
      ensures |r| == |nodes| && forall k :: 0 <= k < |nodes| ==> r[k] == nodes[k].fragmentId
    {
      FragmentIdsOf(nodes)
    }

    /** The current neighbour lists, in list order. */
    ghost function Graph(): (r: seq<seq<Edge>>)
      reads this, nodes`neighbors
      ensures |r| == |nodes| && forall k :: 0 <= k < |nodes| ==> r[k] == nodes[k].neighbors
    {
      NeighborListsOf(nodes)
    }

    /** The links `(a, b)` such that `nodes[b]` is in the neighbour list of `nodes[a]`. */
    ghost function Links(): set<(int, int)>
      reads this, nodes`neighbors
    {
      LinksOf(nodes, Graph())
    }

    /** Every neighbour of a listed node is itself listed. */
    ghost predicate Closed()
      reads this, nodes`neighbors
    {
      ClosedOf(nodes, Graph())
    }

    /**
     * Merges the fragments of `node1` and `node2` when `node2` is in
     * `node1`'s neighbour list and their fragment ids differ: every listed
     * node with the larger of the two ids takes the smaller one. Otherwise
     * nothing changes.
     */
    method MergeFragments(node1: Node, node2: Node)
      modifies nodes`fragmentId
      ensures Frags() ==
        if old(LeadsTo(node1.neighbors, node2)) && old(node1.fragmentId) != old(node2.fragmentId)
        then Relabel(old(Frags()), old(Max(node1.fragmentId, node2.fragmentId)), old(Min(node1.fragmentId, node2.fragmentId)))
        else old(Frags())
    {
      var isConnected := false;
      for k := 0 to |node1.neighbors|
        invariant isConnected <==> exists j :: 0 <= j < k && node1.neighbors[j].to == node2
      {
        if node1.neighbors[k].to == node2 {
          isConnected := true;
          break;
        }
      }
      if isConnected && node1.fragmentId != node2.fragmentId {
        var newFragmentId := Min(node1.fragmentId, node2.fragmentId);
        var oldFragmentId := Max(node1.fragmentId, node2.fragmentId);
        for k := 0 to |nodes|
          invariant forall m :: 0 <= m < |nodes| ==>
            nodes[m].fragmentId ==
              if nodes[m] in nodes[..k] && old(nodes[m].fragmentId) == oldFragmentId
              then newFragmentId else old(nodes[m].fragmentId)
        {
          if nodes[k].fragmentId == oldFragmentId {
            nodes[k].fragmentId := newFragmentId;
          }
        }
        assert forall m :: 0 <= m < |nodes| ==> nodes[m] in nodes[..|nodes|];
      }
    }

    /**
     * Repeats rounds until a round merges nothing. A round is `MergeRound`
     * followed by `ClearMoes`.
     *
     * On exit no listed node has a neighbour in another fragment (stated on
     * the nodes and as `NoCrossing`) and every MOE is cleared. Relative to
     * the fragment ids at entry, `Kept` holds: ids only ever decrease, the
     * canonical-minimum rule is kept, and fragments never grow beyond the
     * connected components of the graph.
     */
    method Run()
      requires Closed()
      modifies nodes`fragmentId, nodes`moe
      ensures forall k, e :: 0 <= k < |nodes| && e in nodes[k].neighbors ==> e.to.fragmentId == nodes[k].fragmentId
      ensures forall k :: 0 <= k < |nodes| ==> nodes[k].moe == None
      ensures Graph() == old(Graph())
      ensures NoCrossing(Frags(), Links())
      ensures Kept(old(Frags()), Frags(), Ids(), Links())
    {
      ghost var start := Frags();
      ghost var steps: seq<(int, int)> := [];
      var anyMerge := true;
      while anyMerge
        invariant Closed() && Across(steps, Links(), |start|) && Frags() == MergeAll(start, steps)
        invariant !anyMerge ==> NoCrossing(Frags(), Links())
        invariant !anyMerge ==> forall k :: 0 <= k < |nodes| ==> nodes[k].moe == None
        decreases |Values(Frags())| + (if anyMerge then 1 else 0)
      {
        anyMerge, steps := Round(start, steps);
      }
      MergesAcrossLinksKeep(start, steps, Ids(), Links());
      NoCrossingAtNodes();
    }

    /** In a closed list, no crossing link means no edge of a listed node leaves its fragment. */
    lemma NoCrossingAtNodes()
      requires Closed() && NoCrossing(Frags(), Links())
      ensures forall k, e :: 0 <= k < |nodes| && e in nodes[k].neighbors ==> e.to.fragmentId == nodes[k].fragmentId
    {
      forall k, e | 0 <= k < |nodes| && e in nodes[k].neighbors
        ensures e.to.fragmentId == nodes[k].fragmentId
      {
        var m :| 0 <= m < |nodes| && nodes[m] == e.to;
        var x :| 0 <= x < |nodes[k].neighbors| && nodes[k].neighbors[x] == e;
        assert (k, m) in Links();
      }
    }

    /**
     * One round of `Run`: the merges of `MergeRound`, then `ClearMoes`.
     * `start` and `steps` record, for the proof, the fragment ids `Run` began
     * with and the merges made since.
     */
    method Round(ghost start: seq<int>, ghost steps: seq<(int, int)>) returns (anyMerge: bool, ghost steps': seq<(int, int)>)
      requires Closed() && |start| == |nodes| && Across(steps, Links(), |nodes|) && Frags() == MergeAll(start, steps)
      modifies nodes`fragmentId, nodes`moe
      ensures Closed() && Across(steps', Links(), |nodes|) && Frags() == MergeAll(start, steps')
      ensures anyMerge ==> |Values(Frags())| < |Values(old(Frags()))|
      ensures !anyMerge ==> Frags() == old(Frags()) && NoCrossing(Frags(), Links())
      ensures forall k :: 0 <= k < |nodes| ==> nodes[k].moe == None
    {
      anyMerge, steps' := MergeRound(start, steps);
      ClearMoes();
    }

    /**
     * Step 1 of a round of `Run`: every listed node, in list order, looks for
     * its minimum outgoing edge and merges across it when it has one. The
     * result says whether any node merged; every merge removes one fragment,
     * and a round without merges leaves no crossing link.
     */
    method MergeRound(ghost start: seq<int>, ghost steps: seq<(int, int)>) returns (anyMerge: bool, ghost steps': seq<(int, int)>)
      requires |start| == |nodes| && Closed() && Across(steps, Links(), |nodes|) && Frags() == MergeAll(start, steps)
      modifies nodes`fragmentId, nodes`moe
      ensures Across(steps', Links(), |nodes|) && Frags() == MergeAll(start, steps')
      ensures anyMerge ==> |Values(Frags())| < |Values(old(Frags()))|
      ensures !anyMerge ==> Frags() == old(Frags()) && NoCrossing(Frags(), Links())
    {
      ghost var roundStart, graph, links := Frags(), Graph(), Links();
      anyMerge, steps' := false, steps;
      for i := 0 to |nodes|
        invariant Graph() == graph
        invariant Across(steps', links, |nodes|) && Frags() == MergeAll(start, steps')
        invariant anyMerge ==> |Values(Frags())| < |Values(roundStart)|
        invariant !anyMerge ==> Frags() == roundStart && SettledUpTo(roundStart, links, i)
      {
        ghost var before := Frags();
        var merged, j := MergeAt(i);
        if merged {
          MergeDropsOneFragment(before, i, j);
          MergeAllSnoc(start, steps', links, i, j);
          steps' := steps' + [(i, j)];
        }
        anyMerge := anyMerge || merged;
      }
    }

    /**
     * One iteration of `MergeRound`: `nodes[i]` looks for its minimum outgoing
     * edge and merges across it when there is one, with `nodes[j]` the node at
     * the other end. Without one, every link from position `i` stays inside
     * its fragment.
     */
    method MergeAt(i: nat) returns (merged: bool, ghost j: nat)
      requires i < |nodes| && Closed()
      modifies nodes`fragmentId, nodes`moe
      ensures Graph() == old(Graph())
      ensures merged ==> j < |nodes| && (i, j) in Links() && old(Frags())[i] != old(Frags())[j]
      ensures merged ==> Frags() == Merge(old(Frags()), i, j)
      ensures !merged ==> Frags() == old(Frags())
      ensures !merged ==> forall p :: p in Links() && p.0 == i && 0 <= p.1 < |nodes| ==> Frags()[i] == Frags()[p.1]
    {
      ghost var before := Frags();
      var node := nodes[i];
      var moe := node.FindMoe();
      if moe.Some? {
        ghost var k :| 0 <= k < |node.neighbors| && node.neighbors[k] == moe.value;
        assert node.neighbors[k] in node.neighbors;
        j :| j < |nodes| && nodes[j] == moe.value.to;
        assert (i, j) in Links();
        MergeFragments(node, moe.value.to);
        return true, j;
      }
      forall p | p in Links() && p.0 == i && 0 <= p.1 < |nodes| ensures before[i] == before[p.1] {
        ghost var x :| 0 <= x < |node.neighbors| && node.neighbors[x].to == nodes[p.1];
        assert node.neighbors[x] in node.neighbors;
      }
      return false, 0;
    }

    /** Step 2 of a round of `Run`: every listed node's MOE is cleared. */
    method ClearMoes()
      modifies nodes`moe
      ensures forall k :: 0 <= k < |nodes| ==> nodes[k].moe == None
      ensures Frags() == old(Frags()) && Graph() == old(Graph())
    {
      for i := 0 to |nodes|
        invariant forall k :: 0 <= k < i ==> nodes[k].moe == None
      {
        nodes[i].moe := None;
      }
    }
  }
}
