/**
 * The node record of the bidirected assembly graph (GFASubgraph/Node.py).
 * A node has two sides, `start` (0) and `end` (1); each side holds a list of
 * `(neighbour_id, neighbour_side, overlap)` entries, one per edge end that
 * attaches there.
 */
module Nodes {
  import opened Wrappers
  import opened Text

  /** One adjacency entry: the neighbour's id, the side of the neighbour the
      edge attaches to (0 start, 1 end), and the overlap in bases. */
  datatype Triple = Triple(id: string, side: int, overlap: int)

  datatype DirectionError = WrongDirection(nodeId: string)

  predicate NoDup<T(==)>(s: seq<T>) {
    forall i, j :: 0 <= i < j < |s| ==> s[i] != s[j]
  }

  /** A repeat-free sequence holds each of its elements exactly once. */
  lemma {:induction false} NoDupCount<T>(s: seq<T>, x: T)
    requires NoDup(s)
    ensures multiset(s)[x] == if x in s then 1 else 0
  {
    if s != [] {
      assert s == [s[0]] + s[1..];
      assert NoDup(s[1..]) by {
        forall i, j | 0 <= i < j < |s[1..]| ensures s[1..][i] != s[1..][j] {
          assert s[1..][i] == s[i + 1] && s[1..][j] == s[j + 1];
        }
      }
      NoDupCount(s[1..], x);
      if x == s[0] {
        forall k | 0 <= k < |s[1..]| ensures s[1..][k] != x {
          assert s[1..][k] == s[k + 1];
        }
      }
    }
  }

  /** Two repeat-free sequences with the same members are permutations of
      each other. */
  lemma NoDupSameMultiset<T>(a: seq<T>, b: seq<T>)
    requires NoDup(a) && NoDup(b)
    requires forall x :: x in a <==> x in b
    ensures multiset(a) == multiset(b)
  {
    forall x ensures multiset(a)[x] == multiset(b)[x] {
      NoDupCount(a, x);
      NoDupCount(b, x);
    }
  }

  /** `[x[0] for x in ts]`. */
  function Ids(ts: seq<Triple>): (r: seq<string>)
    ensures |r| == |ts|
    ensures forall i :: 0 <= i < |ts| ==> r[i] == ts[i].id
  {
    seq(|ts|, i requires 0 <= i < |ts| => ts[i].id)
  }

  lemma IdsMember(ts: seq<Triple>, m: string)
    ensures m in Ids(ts) <==> exists t :: t in ts && t.id == m
  {
    if m in Ids(ts) {
      var i :| 0 <= i < |ts| && Ids(ts)[i] == m;
      assert ts[i] in ts;
    }
  }

  lemma IdsAppend(a: seq<Triple>, b: seq<Triple>)
    ensures Ids(a + b) == Ids(a) + Ids(b)
  {
  }

  datatype Node = Node(
    id: string,
    sequence: string,
    seqLen: nat,
    start: seq<Triple>,
    end: seq<Triple>,
    visited: bool,
    optional: string)
  {
    /** `neighbors()`: the ids on `start` followed by those on `end`,
        sorted; one id per entry, so an id repeats once per edge. */
    function Neighbors(): (r: seq<string>)
      ensures Sorted(r)
      ensures multiset(r) == multiset(Ids(start)) + multiset(Ids(end))
      ensures |r| == |start| + |end|
    {
      Sort(Ids(start) + Ids(end))
    }

    /** `in_direction(m, d)`: direction 0 asks `start`, every other value asks `end`. */
    function InDirection(m: string, direction: int): (r: bool)
      ensures direction == 0 ==> (r <==> exists t :: t in start && t.id == m)
      ensures direction != 0 ==> (r <==> exists t :: t in end && t.id == m)
    {
      IdsMember(start, m);
      IdsMember(end, m);
      if direction == 0 then m in Ids(start) else m in Ids(end)
    }

    /** `children(d)`: the ids of one side in list order; a direction other
        than 0 or 1 raises. */
    function Children(direction: int): (r: Result<seq<string>, DirectionError>)
      ensures r.Ok? <==> direction == 0 || direction == 1
      ensures r.Err? ==> r.error == WrongDirection(id)
      ensures r.Ok? ==>
        var side := if direction == 0 then start else end;
        |r.value| == |side| && forall i :: 0 <= i < |side| ==> r.value[i] == side[i].id
    {
      if direction == 0 then Ok(Ids(start))
      else if direction == 1 then Ok(Ids(end))
      else Err(WrongDirection(id))
    }
  }

  /** `Node(identifier)`: a node with no sequence, no edges and no tags. */
  function NewNode(identifier: string): (n: Node)
    ensures n.id == identifier && n.sequence == "" && n.seqLen == 0 && n.optional == ""
    ensures n.start == [] && n.end == [] && !n.visited
    ensures n.Neighbors() == []
  {
    Node(identifier, "", 0, [], [], false, "")
  }

  /** `len(n.neighbors()) == 0` exactly when both sides are empty. */
  lemma NeighborsEmpty(n: Node)
    ensures |n.Neighbors()| == 0 <==> n.start == [] && n.end == []
  {
  }

  /** An id is among `neighbors()` exactly when some entry on either side
      names it: sorting keeps every id, duplicates included. */
  lemma NeighborsMember(n: Node, m: string)
    ensures m in n.Neighbors() <==> (exists t :: t in n.start && t.id == m) || (exists t :: t in n.end && t.id == m)
  {
    var r := n.Neighbors();
    assert m in r <==> m in multiset(r);
    assert m in multiset(Ids(n.start)) <==> m in Ids(n.start);
    assert m in multiset(Ids(n.end)) <==> m in Ids(n.end);
    IdsMember(n.start, m);
    IdsMember(n.end, m);
  }

  /** The three queries agree: `neighbors()` is `children(0) + children(1)`
      up to order, and `in_direction(m, d)` is membership in `children(d)`. */
  lemma QueriesAgree(n: Node, m: string, d: int)
    requires d == 0 || d == 1
    ensures n.Children(d).Ok? && (n.InDirection(m, d) <==> m in n.Children(d).value)
    ensures multiset(n.Neighbors()) == multiset(n.Children(0).value + n.Children(1).value)
  {
    IdsMember(n.start, m);
    IdsMember(n.end, m);
    assert n.Children(0).value == Ids(n.start);
    assert n.Children(1).value == Ids(n.end);
  }

  /** `neighbors()` is the one sorted arrangement of the entry ids, so it
      does not depend on the order of the entries within the sides. */
  lemma NeighborsOrderFree(n: Node, m: Node)
    requires multiset(Ids(n.start)) + multiset(Ids(n.end)) == multiset(Ids(m.start)) + multiset(Ids(m.end))
    ensures n.Neighbors() == m.Neighbors()
  {
    SortedUnique(n.Neighbors(), m.Neighbors());
  }
}
