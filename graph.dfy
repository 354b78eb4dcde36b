/**
 * The graph store (GFASubgraph/Graph.py): a node table that its methods
 * update in place.
 */
module Graphs {
  import opened Wrappers
  import opened Nodes
  import opened Adjacency

  /** The table after `reset_visited`. */
  function Unvisited(g: NodeMap): (r: NodeMap)
    ensures r.Keys == g.Keys
    ensures forall k :: k in r ==> !r[k].visited
  {
    map k | k in g :: g[k].(visited := false)
  }

  /** Clearing the flags leaves ids, sequences, lengths, tags and both
      adjacency lists of every node as they were. */
  lemma UnvisitedKeepsRest(g: NodeMap, k: string)
    requires k in g
    ensures var n := Unvisited(g)[k];
      n.id == g[k].id && n.sequence == g[k].sequence && n.seqLen == g[k].seqLen
      && n.start == g[k].start && n.end == g[k].end && n.optional == g[k].optional
  {
  }

  /** `len(table) - 1` after a successful `remove_node`. */
  lemma RemovedNodeLen(g: NodeMap, n: string)
    requires RemovedNode(g, n).Some?
    ensures |RemovedNode(g, n).value| == |g| - 1
  {
    var r := RemovedNode(g, n).value;
    assert r.Keys == g.Keys - {n};
    assert |r.Keys| == |g.Keys| - 1;
  }

  /** The table while `remove_lonely_nodes` runs: the nodes with
      neighbours, and the lonely ones still `pending`. */
  ghost function Keep(g: NodeMap, pending: set<string>): NodeMap {
    map k | k in g && (!Lonely(g[k]) || k in pending) :: g[k]
  }

  lemma KeepAll(g: NodeMap, pending: set<string>)
    requires pending == set k | k in g && Lonely(g[k])
    ensures Keep(g, pending) == g
  {
  }

  lemma KeepStep(g: NodeMap, pending: set<string>, k: string)
    requires k in pending && k in g && Lonely(g[k])
    ensures Keep(g, pending) - {k} == Keep(g, pending - {k})
  {
  }

  lemma KeepNone(g: NodeMap)
    ensures Keep(g, {}) == WithoutLonely(g)
  {
  }

  class Graph {
    var nodes: NodeMap

    /** `Graph()` without a file: an empty table. */
    constructor()
      ensures nodes == map[]
    {
      nodes := map[];
    }

    /** `len(graph)`: the number of table entries. */
    function Len(): (r: nat)
      reads this
      ensures r == |nodes.Keys|
    {
      |nodes|
    }

    /** `reset_visited()`: one assignment per node. */
    method ResetVisited()
      modifies this
      ensures nodes == Unvisited(old(nodes))
    {
      ghost var g0 := nodes;
      var pending := nodes.Keys;
      while pending != {}
        invariant pending <= g0.Keys && nodes.Keys == g0.Keys
        invariant forall k :: k in nodes ==> nodes[k] == if k in pending then g0[k] else g0[k].(visited := false)
        decreases pending
      {
        var k :| k in pending;
        nodes := nodes[k := nodes[k].(visited := false)];
        pending := pending - {k};
      }
      assert nodes == Unvisited(g0);
    }

    /** `remove_node(n_id)`: the two loops over snapshots of the sides of
        `n_id`, one `list.remove` per entry, then `del`. The caller must
        not make Python raise: the node and every neighbour it names are in
        the table and every reciprocal is in place. */
    method RemoveNode(nId: string)
      modifies this
      requires RemovedNode(nodes, nId).Some?
      ensures nodes == RemovedNode(old(nodes), nId).value
      ensures Symmetric(old(nodes)) && NoDupLists(old(nodes)) ==> nodes == Purge(old(nodes), nId)
    {
      ghost var g0 := nodes;
      var starts := nodes[nId].start;
      UnlinkAllLoop(nId, 0, starts);
      assert starts[..|starts|] == starts;
      ghost var g1 := nodes;
      var ends := nodes[nId].end;
      UnlinkAllLoop(nId, 1, ends);
      assert ends[..|ends|] == ends;
      nodes := nodes - {nId};
      if Symmetric(g0) && NoDupLists(g0) {
        RemovedNodeIsPurge(g0, nId);
      }
    }

    /** One loop of `remove_node`: for each entry of the snapshot `ts` of
        side `nSide`, remove `(nId, nSide, overlap)` from the neighbour's
        `end` if the entry's side is 1, else from its `start`. */
    method UnlinkAllLoop(nId: string, nSide: int, ts: seq<Triple>)
      modifies this
      requires UnlinkAll(nodes, nId, nSide, ts).Some?
      ensures Some(nodes) == UnlinkAll(old(nodes), nId, nSide, ts)
    {
      ghost var g0 := nodes;
      var i := 0;
      while i < |ts|
        invariant 0 <= i <= |ts|
        invariant UnlinkAll(g0, nId, nSide, ts[..i]) == Some(nodes)
      {
        var t := ts[i];
        var x := Triple(nId, nSide, t.overlap);
        UnlinkAllStep(g0, nId, nSide, ts, i, nodes);
        ghost var cur := nodes;
        var m := nodes[t.id];
        if t.side == 1 {
          nodes := nodes[t.id := m.(end := RemoveFirst(m.end, x))];
        } else {
          nodes := nodes[t.id := m.(start := RemoveFirst(m.start, x))];
        }
        assert Unlink(cur, nId, nSide, t) == Some(nodes);
        i := i + 1;
      }
      assert ts[..i] == ts;
    }

    /** `remove_lonely_nodes()`: the ids of the nodes without neighbours,
        then one `remove_node` per id. The ids must be table keys for
        `remove_node` not to raise. */
    method RemoveLonelyNodes()
      modifies this
      requires WellKeyed(nodes)
      ensures nodes == WithoutLonely(old(nodes))
    {
      ghost var g0 := nodes;
      var toRemove := set v | v in nodes.Values && Lonely(v) :: v.id;
      assert toRemove == set k | k in g0 && Lonely(g0[k]) by {
        forall k | k in g0 && Lonely(g0[k]) ensures k in toRemove {
          assert g0[k] in g0.Values;
        }
      }
      KeepAll(g0, toRemove);
      while toRemove != {}
        invariant forall k :: k in toRemove ==> k in g0 && Lonely(g0[k])
        invariant nodes == Keep(g0, toRemove)
        decreases toRemove
      {
        var k :| k in toRemove;
        RemovedLonely(nodes, k);
        RemoveNode(k);
        KeepStep(g0, toRemove, k);
        toRemove := toRemove - {k};
      }
      KeepNone(g0);
    }
  }
}
