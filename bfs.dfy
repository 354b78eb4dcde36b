/**
 * The bounded breadth-first neighbourhood of GFASubgraph/bfs.py. The graph
 * argument is the id -> Node table itself: the code indexes it and takes
 * its `len`. Walks follow `neighbors()`, which ignores sides.
 */
module Bfs {
  import opened Nodes
  import opened Adjacency

  /** The `KeyError` of `graph[x]` for an id outside the table. */
  datatype BfsError = MissingNode(id: string)

  datatype BfsResult = Ok(value: set<string>) | Err(error: BfsError)

  // ---------------------------------------------------------------------
  // Reachability

  ghost predicate Adjacent(g: NodeMap, a: string, b: string) {
    a in g && b in g[a].Neighbors()
  }

  ghost predicate IsPath(g: NodeMap, p: seq<string>, a: string, b: string) {
    && |p| >= 1 && p[0] == a && p[|p| - 1] == b
    && forall i :: 0 <= i < |p| - 1 ==> Adjacent(g, p[i], p[i + 1])
  }

  ghost predicate Reachable(g: NodeMap, a: string, b: string) {
    exists p :: IsPath(g, p, a, b)
  }

  /** The nodes of the table reachable from `s`. */
  ghost function Component(g: NodeMap, s: string): set<string> {
    set x | x in g && Reachable(g, s, x)
  }

  /** Every id a `neighbors()` list names is in the table. */
  ghost predicate NeighborsInside(g: NodeMap) {
    forall a, b :: a in g && b in g[a].Neighbors() ==> b in g
  }

  lemma ClosedNeighborsInside(g: NodeMap)
    requires Closed(g)
    ensures NeighborsInside(g)
  {
    forall a, b | a in g && b in g[a].Neighbors() ensures b in g {
      NeighborsMember(g[a], b);
    }
  }

  lemma ReachSelf(g: NodeMap, s: string)
    ensures Reachable(g, s, s)
  {
    assert IsPath(g, [s], s, s);
  }

  lemma ReachStep(g: NodeMap, s: string, a: string, b: string)
    requires Reachable(g, s, a) && Adjacent(g, a, b)
    ensures Reachable(g, s, b)
  {
    var p :| IsPath(g, p, s, a);
    var p' := p + [b];
    assert forall i :: 0 <= i < |p| ==> p'[i] == p[i];
    assert IsPath(g, p', s, b);
  }

  /** A set of table nodes that holds `s` and is closed under
      `neighbors()` holds everything reachable from `s`. */
  lemma ClosedHoldsReachable(g: NodeMap, s: string, V: set<string>, x: string)
    requires s in V
    requires forall v :: v in V ==> v in g
    requires forall v, n :: v in V && n in g[v].Neighbors() ==> n in V
    requires Reachable(g, s, x)
    ensures x in V
  {
    var p :| IsPath(g, p, s, x);
    PathInside(g, p, s, x, V, |p| - 1);
  }

  lemma {:induction false} PathInside(g: NodeMap, p: seq<string>, s: string, x: string, V: set<string>, k: nat)
    requires IsPath(g, p, s, x) && k < |p|
    requires s in V
    requires forall v :: v in V ==> v in g
    requires forall v, n :: v in V && n in g[v].Neighbors() ==> n in V
    ensures p[k] in V
  {
    if k > 0 {
      PathInside(g, p, s, x, V, k - 1);
      assert Adjacent(g, p[k - 1], p[k]);
    }
  }

  /** A node with no neighbours reaches only itself. */
  lemma LonelyComponent(g: NodeMap, s: string)
    requires s in g && |g[s].Neighbors()| == 0
    ensures Component(g, s) == {s}
  {
    ReachSelf(g, s);
    forall x | x in Component(g, s) ensures x == s {
      ClosedHoldsReachable(g, s, {s}, x);
    }
  }

  // ---------------------------------------------------------------------
  // The queue

  /** The inner `for` loop: each neighbour not yet visited and not
      already queued is appended, in the order given. */
  function Enqueue(queue: seq<string>, ns: seq<string>, visited: set<string>): (r: seq<string>)
    ensures |queue| <= |r| && r[..|queue|] == queue
    ensures forall n :: n in ns ==> n in visited || n in r
    ensures forall i :: |queue| <= i < |r| ==> r[i] !in visited && r[i] in ns
    ensures NoDup(queue) ==> NoDup(r)
    decreases |ns|
  {
    if ns == [] then queue
    else
      var q := Enqueue(queue, ns[..|ns| - 1], visited);
      var n := ns[|ns| - 1];
      assert forall m :: m in ns ==> m in ns[..|ns| - 1] || m == n;
      if n !in visited && n !in q then q + [n] else q
  }

  /** The number of queued ids already visited. */
  function CountIn(q: seq<string>, V: set<string>): (c: nat)
    ensures c <= |q|
  {
    if q == [] then 0 else (if q[0] in V then 1 else 0) + CountIn(q[1..], V)
  }

  lemma {:induction false} CountInFresh(q: seq<string>, extra: seq<string>, V: set<string>)
    requires forall i :: 0 <= i < |extra| ==> extra[i] !in V
    ensures CountIn(q + extra, V) == CountIn(q, V)
    decreases |q| + |extra|
  {
    if q == [] {
      assert q + extra == extra;
      if extra != [] {
        CountInFresh([], extra[1..], V);
        assert [] + extra[1..] == extra[1..];
      }
    } else {
      assert (q + extra)[1..] == q[1..] + extra;
      CountInFresh(q[1..], extra, V);
    }
  }

  lemma CountInEnqueue(q: seq<string>, ns: seq<string>, V: set<string>)
    ensures CountIn(Enqueue(q, ns, V), V) == CountIn(q, V)
  {
    var r := Enqueue(q, ns, V);
    assert r == q + r[|q|..];
    CountInFresh(q, r[|q|..], V);
  }

  // ---------------------------------------------------------------------
  // The loop and the search

  lemma SubsetCard(a: set<string>, b: set<string>)
    requires a <= b
    ensures |a| <= |b|
    ensures |a| >= |b| ==> a == b
  {
    assert b == a + (b - a);
    assert |b| == |a| + |b - a|;
  }

  /** One round either visits a node not visited before or pops a visited
      one and queues only unvisited ones. */
  lemma RoundDecreases(g: NodeMap, queue: seq<string>, visited: set<string>)
    requires |queue| > 0 && queue[0] in g
    ensures var x := queue[0];
      var v' := visited + {x};
      var q' := Enqueue(queue[1..], g[x].Neighbors(), v');
      || |g.Keys - v'| < |g.Keys - visited|
      || (|g.Keys - v'| == |g.Keys - visited| && CountIn(q', v') < CountIn(queue, visited))
  {
    var x := queue[0];
    var v' := visited + {x};
    CountInEnqueue(queue[1..], g[x].Neighbors(), v');
    if x in visited {
      assert v' == visited;
    } else {
      assert g.Keys - visited == (g.Keys - v') + {x};
    }
  }

  /** `main_while_loop` from the state `neighborhood`, `queue`, `visited`:
      while the neighbourhood has at most `size` nodes and the queue is not
      empty, pop the front, add it to the neighbourhood and to `visited`,
      and enqueue its new neighbours. Each round either visits a new node
      or pops an already visited one. */
  function Loop(g: NodeMap, nh: set<string>, queue: seq<string>, visited: set<string>, size: int): BfsResult
    decreases |g.Keys - visited|, CountIn(queue, visited)
  {
    if !(|nh| <= size && |queue| > 0) then Ok(nh)
    else
      var x := queue[0];
      if x !in g then Err(MissingNode(x))
      else
        RoundDecreases(g, queue, visited);
        Loop(g, nh + {x}, Enqueue(queue[1..], g[x].Neighbors(), visited + {x}), visited + {x}, size)
  }

  lemma LoopRound(g: NodeMap, nh: set<string>, queue: seq<string>, visited: set<string>, size: int)
    requires |nh| <= size && |queue| > 0 && queue[0] in g
    ensures var x := queue[0];
      Loop(g, nh, queue, visited, size)
        == Loop(g, nh + {x}, Enqueue(queue[1..], g[x].Neighbors(), visited + {x}), visited + {x}, size)
  {
  }

  /** The clamp of `bfs`: a bound above `len(graph)` becomes `len(graph) - 1`. */
  function EffectiveSize(g: NodeMap, size: int): (e: int)
    ensures size > |g| ==> e == |g| - 1
    ensures size <= |g| ==> e == size
    ensures e <= size
  {
    if size > |g| then |g| - 1 else size
  }

  /** `bfs(graph, start_node, size)`. */
  function BfsSpec(g: NodeMap, s: string, size: int): BfsResult {
    if s !in g then Err(MissingNode(s))
    else if |g[s].Neighbors()| == 0 then Ok({s})
    else Loop(g, {s}, [s], {s}, EffectiveSize(g, size))
  }

  method MainWhileLoop(g: NodeMap, startNode: string, queue0: seq<string>, visited0: set<string>, size: int)
      returns (r: BfsResult)
    ensures r == Loop(g, {startNode}, if |queue0| == 0 then [startNode] else queue0, visited0, size)
  {
    var neighborhood := {startNode};
    var queue := queue0;
    var visited := visited0;
    if |queue| == 0 {
      queue := queue + [startNode];
    }
    ghost var goal := Loop(g, neighborhood, queue, visited, size);
    while |neighborhood| <= size && |queue| > 0
      invariant Loop(g, neighborhood, queue, visited, size) == goal
      decreases |g.Keys - visited|, CountIn(queue, visited)
    {
      ghost var nhBefore := neighborhood;
      ghost var queueBefore := queue;
      var start := queue[0];
      queue := queue[1..];
      if start !in neighborhood {
        neighborhood := neighborhood + {start};
      }
      ghost var visitedBefore := visited;
      visited := visited + {start};
      if start !in g {
        return Err(MissingNode(start));
      }
      var neighbors := g[start].Neighbors();
      queue := EnqueueLoop(queue, neighbors, visited);
      RoundDecreases(g, queueBefore, visitedBefore);
      LoopRound(g, nhBefore, queueBefore, visitedBefore, size);
      assert neighborhood == nhBefore + {start};
      assert Loop(g, neighborhood, queue, visited, size) == Loop(g, nhBefore, queueBefore, visitedBefore, size);
    }
    r := Ok(neighborhood);
  }

  /** The inner `for` loop of `main_while_loop`. */
  method EnqueueLoop(queue0: seq<string>, neighbors: seq<string>, visited: set<string>) returns (queue: seq<string>)
    ensures queue == Enqueue(queue0, neighbors, visited)
  {
    queue := queue0;
    for j := 0 to |neighbors|
      invariant queue == Enqueue(queue0, neighbors[..j], visited)
    {
      assert neighbors[..j + 1][..j] == neighbors[..j];
      var n := neighbors[j];
      if n !in visited && n !in queue {
        queue := queue + [n];
      }
    }
    assert neighbors[..|neighbors|] == neighbors;
  }

  method Bfs(g: NodeMap, startNode: string, size0: int) returns (r: BfsResult)
    ensures r == BfsSpec(g, startNode, size0)
  {
    var size := size0;
    if size > |g| {
      size := |g| - 1;
    }
    var queue := [startNode];
    var visited := {startNode};
    if startNode !in g {
      return Err(MissingNode(startNode));
    }
    var neighbors := g[startNode].Neighbors();
    if |neighbors| == 0 {
      return Ok({startNode});
    }
    assert size == EffectiveSize(g, size0);
    assert BfsSpec(g, startNode, size0) == Loop(g, {startNode}, queue, visited, size);
    r := MainWhileLoop(g, startNode, queue, visited, size);
  }

  // ---------------------------------------------------------------------
  // What the loop keeps

  /** The loop state as `bfs` sets it up and every round keeps it: the
      neighbourhood is the visited set and holds the start, every visited
      node is in the table, a visited node that has left the queue has all
      its neighbours visited or queued, and everything in hand is reachable
      from the start. */
  ghost predicate Inv(g: NodeMap, s: string, nh: set<string>, queue: seq<string>, visited: set<string>) {
    && s in nh && nh == visited
    && (forall v :: v in visited ==> v in g)
    && (forall v, n :: v in visited && v !in queue && n in g[v].Neighbors() ==> n in visited || n in queue)
    && (forall x :: x in nh ==> Reachable(g, s, x))
    && (forall i :: 0 <= i < |queue| ==> Reachable(g, s, queue[i]))
    && NoDup(queue)
    && (forall i :: 0 < i < |queue| ==> queue[i] !in visited)
  }

  lemma InvInit(g: NodeMap, s: string)
    requires s in g
    ensures Inv(g, s, {s}, [s], {s})
  {
    ReachSelf(g, s);
  }

  /** What was queued behind the popped front stays queued. */
  lemma QueueKeepsTail(queue: seq<string>, q': seq<string>)
    requires |queue| > 0 && |queue| - 1 <= |q'| && q'[..|queue| - 1] == queue[1..]
    ensures forall y :: y in queue && y != queue[0] ==> y in q'
  {
    forall y | y in queue && y != queue[0] ensures y in q' {
      var i :| 0 <= i < |queue| && queue[i] == y;
      assert q'[i - 1] == queue[1..][i - 1];
    }
  }

  lemma InvStep(g: NodeMap, s: string, nh: set<string>, queue: seq<string>, visited: set<string>)
    requires Inv(g, s, nh, queue, visited) && |queue| > 0 && queue[0] in g
    ensures var x := queue[0];
      Inv(g, s, nh + {x}, Enqueue(queue[1..], g[x].Neighbors(), visited + {x}), visited + {x})
  {
    var x := queue[0];
    var v' := visited + {x};
    var q' := Enqueue(queue[1..], g[x].Neighbors(), v');
    InvStepClosed(g, queue, visited);
    assert Reachable(g, s, x);
    InvStepReach(g, s, queue, v');
    InvStepFresh(queue, g[x].Neighbors(), visited);
  }

  /** Popping the front of a queue without repeats leaves the rest without
      repeats and without the front. */
  lemma TailFresh(queue: seq<string>)
    requires |queue| > 0 && NoDup(queue)
    ensures NoDup(queue[1..]) && queue[0] !in queue[1..]
  {
    forall k | 0 <= k < |queue| - 1 ensures queue[1..][k] != queue[0] {
      assert queue[1..][k] == queue[k + 1];
    }
  }

  /** After a round the queue has no repeats and holds no visited id,
      not even at its front. */
  lemma InvStepFresh(queue: seq<string>, ns: seq<string>, visited: set<string>)
    requires |queue| > 0 && NoDup(queue)
    requires forall i :: 0 < i < |queue| ==> queue[i] !in visited
    ensures var v' := visited + {queue[0]};
      var q' := Enqueue(queue[1..], ns, v');
      NoDup(q') && forall i :: 0 <= i < |q'| ==> q'[i] !in v'
  {
    var x := queue[0];
    var v' := visited + {x};
    var q' := Enqueue(queue[1..], ns, v');
    TailFresh(queue);
    forall i | 0 <= i < |q'| ensures q'[i] !in v' {
      if i < |queue| - 1 {
        assert q'[i] == queue[1..][i] == queue[i + 1];
      }
    }
  }

  /** Marking the head visited and queueing its unvisited neighbours keeps
      every neighbour of a visited node off the queue visited or queued. */
  lemma InvStepClosed(g: NodeMap, queue: seq<string>, visited: set<string>)
    requires |queue| > 0 && queue[0] in g && forall v :: v in visited ==> v in g
    requires forall v, n :: v in visited && v !in queue && n in g[v].Neighbors() ==> n in visited || n in queue
    ensures var x := queue[0];
      var v' := visited + {x};
      var q' := Enqueue(queue[1..], g[x].Neighbors(), v');
      forall v, n :: v in v' && v !in q' && n in g[v].Neighbors() ==> n in v' || n in q'
  {
    var x := queue[0];
    var v' := visited + {x};
    var q' := Enqueue(queue[1..], g[x].Neighbors(), v');
    assert queue == [x] + queue[1..];
    QueueKeepsTail(queue, q');
    forall v, n | v in v' && v !in q' && n in g[v].Neighbors() ensures n in v' || n in q' {
      if v != x {
        assert v !in queue;
        assert n in visited || n in queue;
      }
    }
  }

  /** Everything queued after a round is reachable from the start. */
  lemma InvStepReach(g: NodeMap, s: string, queue: seq<string>, v': set<string>)
    requires |queue| > 0 && queue[0] in g && Reachable(g, s, queue[0])
    requires forall i :: 0 <= i < |queue| ==> Reachable(g, s, queue[i])
    ensures var q' := Enqueue(queue[1..], g[queue[0]].Neighbors(), v');
      forall i :: 0 <= i < |q'| ==> Reachable(g, s, q'[i])
  {
    var x := queue[0];
    var q' := Enqueue(queue[1..], g[x].Neighbors(), v');
    forall i | 0 <= i < |q'| ensures Reachable(g, s, q'[i]) {
      if i < |queue[1..]| {
        assert q'[i] == queue[i + 1];
      } else {
        ReachStep(g, s, x, q'[i]);
      }
    }
  }

  /** The loop result keeps the start, holds only table nodes reachable
      from the start, and grows past `size + 1` nodes never. */
  lemma {:induction false} LoopSound(g: NodeMap, s: string, nh: set<string>, queue: seq<string>, visited: set<string>, size: int)
    requires Inv(g, s, nh, queue, visited)
    ensures var r := Loop(g, nh, queue, visited, size);
      r.Ok? ==>
        && nh <= r.value && s in r.value
        && (forall x :: x in r.value ==> x in g && Reachable(g, s, x))
        && |r.value| <= if |nh| > size + 1 then |nh| else size + 1
    decreases |g.Keys - visited|, CountIn(queue, visited)
  {
    if |nh| <= size && |queue| > 0 && queue[0] in g {
      var x := queue[0];
      var v' := visited + {x};
      RoundDecreases(g, queue, visited);
      InvStep(g, s, nh, queue, visited);
      LoopSound(g, s, nh + {x}, Enqueue(queue[1..], g[x].Neighbors(), v'), v', size);
      assert |nh + {x}| <= |nh| + 1;
    }
  }

  /** The number of rounds `Loop` completes from the given state. */
  ghost function LoopRounds(g: NodeMap, nh: set<string>, queue: seq<string>, visited: set<string>, size: int): nat
    decreases |g.Keys - visited|, CountIn(queue, visited)
  {
    if !(|nh| <= size && |queue| > 0) || queue[0] !in g then 0
    else
      var x := queue[0];
      RoundDecreases(g, queue, visited);
      1 + LoopRounds(g, nh + {x}, Enqueue(queue[1..], g[x].Neighbors(), visited + {x}), visited + {x}, size)
  }

  /** Every round but one that pops an already visited front visits a new
      table node, so the rounds are bounded by the unvisited table nodes. */
  lemma {:induction false} LoopRoundsBound(g: NodeMap, s: string, nh: set<string>, queue: seq<string>, visited: set<string>, size: int)
    requires Inv(g, s, nh, queue, visited)
    ensures LoopRounds(g, nh, queue, visited, size)
      <= |g.Keys - visited| + (if |queue| > 0 && queue[0] in visited then 1 else 0)
    decreases |g.Keys - visited|, CountIn(queue, visited)
  {
    if |nh| <= size && |queue| > 0 && queue[0] in g {
      var x := queue[0];
      var v' := visited + {x};
      var q' := Enqueue(queue[1..], g[x].Neighbors(), v');
      RoundDecreases(g, queue, visited);
      InvStep(g, s, nh, queue, visited);
      InvStepFresh(queue, g[x].Neighbors(), visited);
      assert q' == [] || q'[0] !in v';
      LoopRoundsBound(g, s, nh + {x}, q', v', size);
      if x !in visited {
        assert g.Keys - visited == (g.Keys - v') + {x};
      }
    }
  }

  /** With every queued id and every neighbour in the table, no `KeyError`. */
  lemma {:induction false} LoopNoError(g: NodeMap, nh: set<string>, queue: seq<string>, visited: set<string>, size: int)
    requires NeighborsInside(g)
    requires forall i :: 0 <= i < |queue| ==> queue[i] in g
    ensures Loop(g, nh, queue, visited, size).Ok?
    decreases |g.Keys - visited|, CountIn(queue, visited)
  {
    if |nh| <= size && |queue| > 0 {
      var x := queue[0];
      var v' := visited + {x};
      var q' := Enqueue(queue[1..], g[x].Neighbors(), v');
      RoundDecreases(g, queue, visited);
      forall i | 0 <= i < |q'| ensures q'[i] in g {
        if i < |queue[1..]| {
          assert q'[i] == queue[i + 1];
        }
      }
      LoopNoError(g, nh + {x}, q', v', size);
    }
  }

  /** A bound no smaller than the component's size less one lets the loop
      collect exactly the component. */
  lemma {:induction false} LoopComponent(g: NodeMap, s: string, nh: set<string>, queue: seq<string>, visited: set<string>, size: int)
    requires Inv(g, s, nh, queue, visited) && NeighborsInside(g)
    requires forall i :: 0 <= i < |queue| ==> queue[i] in g
    requires size + 1 >= |Component(g, s)|
    ensures Loop(g, nh, queue, visited, size) == Ok(Component(g, s))
    decreases |g.Keys - visited|, CountIn(queue, visited)
  {
    var C := Component(g, s);
    assert nh <= C;
    if |nh| <= size && |queue| > 0 {
      var x := queue[0];
      var v' := visited + {x};
      var q' := Enqueue(queue[1..], g[x].Neighbors(), v');
      RoundDecreases(g, queue, visited);
      InvStep(g, s, nh, queue, visited);
      forall i | 0 <= i < |q'| ensures q'[i] in g {
        if i < |queue[1..]| {
          assert q'[i] == queue[i + 1];
        }
      }
      LoopComponent(g, s, nh + {x}, q', v', size);
    } else if |queue| == 0 {
      DrainedIsComponent(g, s, nh, visited);
    } else {
      SubsetCard(nh, C);
    }
  }

  /** A drained queue leaves the visited set closed under `neighbors()`,
      so the neighbourhood is the whole component. */
  lemma DrainedIsComponent(g: NodeMap, s: string, nh: set<string>, visited: set<string>)
    requires Inv(g, s, nh, [], visited)
    ensures nh == Component(g, s)
  {
    DrainedClosed(g, s, nh, visited);
    ClosedIsComponent(g, s, nh);
  }

  lemma DrainedClosed(g: NodeMap, s: string, nh: set<string>, visited: set<string>)
    requires Inv(g, s, nh, [], visited)
    ensures s in nh && forall v :: v in nh ==> v in g && Reachable(g, s, v)
    ensures forall v, n :: v in nh && n in g[v].Neighbors() ==> n in nh
  {
    forall v, n | v in nh && n in g[v].Neighbors() ensures n in nh {
      assert v !in [];
    }
  }

  /** A set of reachable table nodes holding `s` and closed under
      `neighbors()` is the component of `s`. */
  lemma ClosedIsComponent(g: NodeMap, s: string, V: set<string>)
    requires s in V
    requires forall v :: v in V ==> v in g && Reachable(g, s, v)
    requires forall v, n :: v in V && n in g[v].Neighbors() ==> n in V
    ensures V == Component(g, s)
  {
    forall x | x in Component(g, s) ensures x in V {
      ClosedHoldsReachable(g, s, V, x);
    }
  }

  // ---------------------------------------------------------------------
  // What bfs promises

  /** A start outside the table raises. */
  lemma BfsMissing(g: NodeMap, s: string, size: int)
    requires s !in g
    ensures BfsSpec(g, s, size) == Err(MissingNode(s))
  {
  }

  /** A start without neighbours yields exactly `{start}`, whatever the bound. */
  lemma BfsLonely(g: NodeMap, s: string, size: int)
    requires s in g && |g[s].Neighbors()| == 0
    ensures BfsSpec(g, s, size) == Ok({s})
  {
  }

  /** The neighbourhood holds the start, holds only table nodes reachable
      from it, and has at most `max(1, size + 1)` nodes for the bound after
      the clamp (so also for the bound given). */
  lemma BfsSound(g: NodeMap, s: string, size: int)
    ensures var r := BfsSpec(g, s, size);
      r.Ok? ==>
        && s in r.value
        && (forall x :: x in r.value ==> x in g && Reachable(g, s, x))
        && |r.value| <= (if EffectiveSize(g, size) < 0 then 1 else EffectiveSize(g, size) + 1)
        && |r.value| <= (if size < 0 then 1 else size + 1)
  {
    if s in g {
      ReachSelf(g, s);
      if |g[s].Neighbors()| != 0 {
        StartSound(g, s, EffectiveSize(g, size));
      }
    }
  }

  /** `LoopSound` from the state `bfs` sets up. */
  lemma StartSound(g: NodeMap, s: string, e: int)
    requires s in g
    ensures var r := Loop(g, {s}, [s], {s}, e);
      r.Ok? ==>
        && s in r.value
        && (forall x :: x in r.value ==> x in g && Reachable(g, s, x))
        && |r.value| <= (if e < 0 then 1 else e + 1)
  {
    InvInit(g, s);
    LoopSound(g, s, {s}, [s], {s}, e);
    assert |{s}| == 1;
  }

  /** When every neighbour id is in the table, a start in the table raises
      nothing. */
  lemma BfsNoError(g: NodeMap, s: string, size: int)
    requires NeighborsInside(g) && s in g
    ensures BfsSpec(g, s, size).Ok?
  {
    if |g[s].Neighbors()| != 0 {
      LoopNoError(g, {s}, [s], {s}, EffectiveSize(g, size));
    }
  }

  /** With a bound (after the clamp) of at least the component's size less
      one, the neighbourhood is the start's whole connected component. */
  lemma BfsComponent(g: NodeMap, s: string, size: int)
    requires NeighborsInside(g) && s in g
    requires EffectiveSize(g, size) + 1 >= |Component(g, s)|
    ensures BfsSpec(g, s, size) == Ok(Component(g, s))
  {
    if |g[s].Neighbors()| == 0 {
      LonelyComponent(g, s);
    } else {
      InvInit(g, s);
      LoopComponent(g, s, {s}, [s], {s}, EffectiveSize(g, size));
    }
  }

  /** The `while` loop of `bfs` ends after at most `len(graph)` rounds:
      the first pops the start, and every later one visits a new node. */
  lemma BfsRounds(g: NodeMap, s: string, size: int)
    requires s in g
    ensures LoopRounds(g, {s}, [s], {s}, EffectiveSize(g, size)) <= |g|
  {
    InvInit(g, s);
    LoopRoundsBound(g, s, {s}, [s], {s}, EffectiveSize(g, size));
    assert g.Keys == (g.Keys - {s}) + {s};
  }

  /** In particular a bound of at least `len(graph) - 1` yields the whole
      component. */
  lemma BfsWholeComponent(g: NodeMap, s: string, size: int)
    requires NeighborsInside(g) && s in g && size >= |g| - 1
    ensures BfsSpec(g, s, size) == Ok(Component(g, s))
  {
    SubsetCard(Component(g, s), g.Keys);
    BfsComponent(g, s, size);
  }
}
