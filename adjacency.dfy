/**
 * The node table as a value (`Graph.nodes`, an id -> Node dictionary), the
 * invariants the decoder establishes on it, and node removal as
 * GFASubgraph/Graph.py performs it: one `list.remove` per edge end of the
 * removed node, over snapshots of its two lists, then `del`.
 */
module Adjacency {
  import opened Wrappers
  import opened Nodes

  type NodeMap = map<string, Node>

  /** The list a stored side value selects, read as `remove_node` reads it:
      1 is `end`, anything else `start`. */
  function SideList(n: Node, side: int): seq<Triple> {
    if side == 1 then n.end else n.start
  }

  function WithSideList(n: Node, side: int, ts: seq<Triple>): Node {
    if side == 1 then n.(end := ts) else n.(start := ts)
  }

  /** Every node is stored under its own id. */
  predicate WellKeyed(g: NodeMap) {
    forall k :: k in g ==> g[k].id == k
  }

  /** Edge symmetry: every entry `(b, sb, ov)` on side `sa` of `a` names a
      node of the table and a side 0 or 1, and `(a, sa, ov)` sits on side
      `sb` of `b`. */
  ghost predicate Symmetric(g: NodeMap) {
    forall a, sa, t :: a in g && (sa == 0 || sa == 1) && t in SideList(g[a], sa) ==>
      t.id in g && (t.side == 0 || t.side == 1) && Triple(a, sa, t.overlap) in SideList(g[t.id], t.side)
  }

  /** No side list holds the same entry twice. */
  predicate NoDupLists(g: NodeMap) {
    forall a :: a in g ==> NoDup(g[a].start) && NoDup(g[a].end)
  }

  /** No entry names a node outside the table. */
  ghost predicate Closed(g: NodeMap) {
    forall a, t :: a in g && (t in g[a].start || t in g[a].end) ==> t.id in g
  }

  lemma SymmetricClosed(g: NodeMap)
    requires Symmetric(g)
    ensures Closed(g)
  {
    forall a, t | a in g && (t in g[a].start || t in g[a].end) ensures t.id in g {
      if t in g[a].start {
        assert t in SideList(g[a], 0);
      } else {
        assert t in SideList(g[a], 1);
      }
    }
  }

  /** The position of the first occurrence of `x` in `s`. */
  function FirstIndex(s: seq<Triple>, x: Triple): (i: nat)
    requires x in s
    ensures i < |s| && s[i] == x && x !in s[..i]
    decreases |s|
  {
    assert s == [s[0]] + s[1..];
    if s[0] == x then 0
    else
      var j := FirstIndex(s[1..], x);
      assert s[..j + 1] == [s[0]] + s[1..][..j];
      j + 1
  }

  /** Python's `list.remove(x)`: drops the first occurrence of `x`. */
  function RemoveFirst(s: seq<Triple>, x: Triple): (r: seq<Triple>)
    requires x in s
    ensures multiset(r) == multiset(s) - multiset{x}
    decreases |s|
  {
    assert s == [s[0]] + s[1..];
    if s[0] == x then s[1..] else [s[0]] + RemoveFirst(s[1..], x)
  }

  /** `RemoveFirst` cuts out exactly the first occurrence and keeps every
      other entry in its order. */
  lemma {:induction false} RemoveFirstOrder(s: seq<Triple>, x: Triple)
    requires x in s
    ensures RemoveFirst(s, x) == s[..FirstIndex(s, x)] + s[FirstIndex(s, x) + 1..]
    decreases |s|
  {
    if s[0] == x {
      assert FirstIndex(s, x) == 0 && RemoveFirst(s, x) == s[1..];
      assert s[..0] + s[1..] == s[1..];
    } else {
      var t := s[1..];
      PastHead(s, x);
      var j := FirstIndex(t, x);
      RemoveFirstOrder(t, x);
      assert RemoveFirst(s, x) == [s[0]] + (t[..j] + t[j + 1..]);
      Rejoin(s, j);
      assert FirstIndex(s, x) == j + 1;
    }
  }

  /** Past a head other than `x`, both the search and the removal continue
      in the tail. */
  lemma PastHead(s: seq<Triple>, x: Triple)
    requires x in s && s[0] != x
    ensures x in s[1..]
    ensures FirstIndex(s, x) == FirstIndex(s[1..], x) + 1
    ensures RemoveFirst(s, x) == [s[0]] + RemoveFirst(s[1..], x)
  {
    assert s == [s[0]] + s[1..];
  }

  /** Regrouping behind `RemoveFirstOrder`'s inductive step. */
  lemma Rejoin(s: seq<Triple>, j: nat)
    requires j + 1 < |s|
    ensures [s[0]] + (s[1..][..j] + s[1..][j + 1..]) == s[..j + 1] + s[j + 2..]
  {
    assert s[..j + 1] == [s[0]] + s[1..][..j];
    assert s[j + 2..] == s[1..][j + 1..];
  }

  // ---------------------------------------------------------------------
  // remove_node as written

  /** One `remove` call of `remove_node` for entry `t` on side `nSide` of
      `n`: the reciprocal `(n, nSide, t.overlap)` leaves the list of `t.id`
      that `t.side` selects. `None` where Python raises: a `KeyError` for a
      neighbour missing from the table, a `ValueError` for a missing
      reciprocal. */
  function Unlink(g: NodeMap, n: string, nSide: int, t: Triple): (r: Option<NodeMap>)
    ensures r.Some? ==> r.value.Keys == g.Keys
  {
    var x := Triple(n, nSide, t.overlap);
    if t.id in g && x in SideList(g[t.id], t.side) then
      Some(g[t.id := WithSideList(g[t.id], t.side, RemoveFirst(SideList(g[t.id], t.side), x))])
    else
      None
  }

  /** One of the two loops of `remove_node`, over a snapshot `ts` of a side
      of `n`, stopping at the first failing `remove`. */
  function UnlinkAll(g: NodeMap, n: string, nSide: int, ts: seq<Triple>): (r: Option<NodeMap>)
    ensures r.Some? ==> r.value.Keys == g.Keys
    decreases |ts|
  {
    if ts == [] then Some(g)
    else
      match UnlinkAll(g, n, nSide, ts[..|ts| - 1])
      case None => None
      case Some(g1) => Unlink(g1, n, nSide, ts[|ts| - 1])
  }

  /** `remove_node(n)`: unlink the entries of `start` (snapshot taken first),
      then those of `end` (snapshot taken after the first loop), then delete
      `n`. `None` where Python raises. */
  function RemovedNode(g: NodeMap, n: string): (r: Option<NodeMap>)
    ensures r.Some? ==> r.value.Keys == g.Keys - {n}
  {
    if n !in g then None
    else
      match UnlinkAll(g, n, 0, g[n].start)
      case None => None
      case Some(g1) =>
        match UnlinkAll(g1, n, 1, g1[n].end)
        case None => None
        case Some(g2) => Some(g2 - {n})
  }

  lemma {:induction false} UnlinkAllPrefix(g: NodeMap, n: string, nSide: int, ts: seq<Triple>, k: nat)
    requires UnlinkAll(g, n, nSide, ts).Some? && k <= |ts|
    ensures UnlinkAll(g, n, nSide, ts[..k]).Some?
    decreases |ts| - k
  {
    if k < |ts| {
      var ts' := ts[..|ts| - 1];
      assert ts'[..k] == ts[..k];
      UnlinkAllPrefix(g, n, nSide, ts', k);
    } else {
      assert ts[..k] == ts;
    }
  }

  /** The `i`-th `remove` of a loop that succeeds as a whole succeeds, on
      the table the first `i` calls left. */
  lemma UnlinkAllStep(g: NodeMap, n: string, nSide: int, ts: seq<Triple>, i: nat, cur: NodeMap)
    requires UnlinkAll(g, n, nSide, ts).Some? && i < |ts|
    requires UnlinkAll(g, n, nSide, ts[..i]) == Some(cur)
    ensures ts[i].id in cur && Triple(n, nSide, ts[i].overlap) in SideList(cur[ts[i].id], ts[i].side)
    ensures UnlinkAll(g, n, nSide, ts[..i + 1]) == Unlink(cur, n, nSide, ts[i])
  {
    UnlinkAllPrefix(g, n, nSide, ts, i + 1);
    assert ts[..i + 1][..i] == ts[..i];
  }

  // ---------------------------------------------------------------------
  // The intended result: n gone, and every entry naming n gone

  /** The entries of `L` that do not name `n`, in order. */
  function Drop(L: seq<Triple>, n: string): (r: seq<Triple>)
    ensures forall y :: y in r <==> y in L && y.id != n
    ensures NoDup(L) ==> NoDup(r)
    decreases |L|
  {
    if L == [] then []
    else
      assert L == [L[0]] + L[1..];
      (if L[0].id == n then [] else [L[0]]) + Drop(L[1..], n)
  }

  /** The table without `n`, every remaining side list stripped of the
      entries that name `n`. */
  function Purge(g: NodeMap, n: string): NodeMap {
    map m | m in g && m != n :: g[m].(start := Drop(g[m].start, n), end := Drop(g[m].end, n))
  }

  // ---------------------------------------------------------------------
  // The proof that remove_node computes Purge

  /** Entry `y` of list `s` of `m` has been removed by the entries `done`
      processed so far on side `nSide` of `n`. */
  ghost predicate Cuts(y: Triple, m: string, s: int, n: string, nSide: int, done: seq<Triple>) {
    y.id == n && y.side == nSide && Triple(m, s, y.overlap) in done
  }

  ghost function CutList(L: seq<Triple>, m: string, s: int, n: string, nSide: int, done: seq<Triple>): seq<Triple>
    decreases |L|
  {
    if L == [] then []
    else if Cuts(L[0], m, s, n, nSide, done) then CutList(L[1..], m, s, n, nSide, done)
    else [L[0]] + CutList(L[1..], m, s, n, nSide, done)
  }

  /** The table after the entries `done` of side `nSide` of `n` have been
      unlinked, when no list holds duplicates. */
  ghost function Cut(g0: NodeMap, n: string, nSide: int, done: seq<Triple>): NodeMap {
    map m | m in g0 :: g0[m].(start := CutList(g0[m].start, m, 0, n, nSide, done),
                              end := CutList(g0[m].end, m, 1, n, nSide, done))
  }

  lemma {:induction false} CutListMember(L: seq<Triple>, m: string, s: int, n: string, nSide: int, done: seq<Triple>, y: Triple)
    ensures y in CutList(L, m, s, n, nSide, done) <==> y in L && !Cuts(y, m, s, n, nSide, done)
    decreases |L|
  {
    if L != [] {
      CutListMember(L[1..], m, s, n, nSide, done, y);
      assert L == [L[0]] + L[1..];
    }
  }

  lemma NoDupTail(L: seq<Triple>)
    requires NoDup(L) && L != []
    ensures NoDup(L[1..]) && L[0] !in L[1..]
  {
    forall i, j | 0 <= i < j < |L[1..]| ensures L[1..][i] != L[1..][j] {
      assert L[1..][i] == L[i + 1] && L[1..][j] == L[j + 1];
    }
    forall k | 0 <= k < |L[1..]| ensures L[1..][k] != L[0] {
      assert L[1..][k] == L[k + 1];
    }
  }

  lemma NoDupCons(x: Triple, L: seq<Triple>)
    requires NoDup(L) && x !in L
    ensures NoDup([x] + L)
  {
    forall i, j | 0 <= i < j < |[x] + L| ensures ([x] + L)[i] != ([x] + L)[j] {
      assert ([x] + L)[j] == L[j - 1];
      if i > 0 {
        assert ([x] + L)[i] == L[i - 1];
      }
    }
  }

  lemma {:induction false} CutListNoDup(L: seq<Triple>, m: string, s: int, n: string, nSide: int, done: seq<Triple>)
    requires NoDup(L)
    ensures NoDup(CutList(L, m, s, n, nSide, done))
    decreases |L|
  {
    if L != [] {
      NoDupTail(L);
      CutListNoDup(L[1..], m, s, n, nSide, done);
      CutListMember(L[1..], m, s, n, nSide, done, L[0]);
      if !Cuts(L[0], m, s, n, nSide, done) {
        NoDupCons(L[0], CutList(L[1..], m, s, n, nSide, done));
      }
    }
  }

  lemma CutNoDup(g0: NodeMap, n: string, nSide: int, done: seq<Triple>)
    requires NoDupLists(g0)
    ensures NoDupLists(Cut(g0, n, nSide, done))
  {
    forall a | a in g0 ensures NoDup(Cut(g0, n, nSide, done)[a].start) && NoDup(Cut(g0, n, nSide, done)[a].end) {
      CutListNoDup(g0[a].start, a, 0, n, nSide, done);
      CutListNoDup(g0[a].end, a, 1, n, nSide, done);
    }
  }

  lemma {:induction false} CutListNone(L: seq<Triple>, m: string, s: int, n: string, nSide: int)
    ensures CutList(L, m, s, n, nSide, []) == L
    decreases |L|
  {
    if L != [] {
      CutListNone(L[1..], m, s, n, nSide);
      assert L == [L[0]] + L[1..];
    }
  }

  lemma CutNone(g0: NodeMap, n: string, nSide: int)
    ensures Cut(g0, n, nSide, []) == g0
  {
    forall m | m in g0 ensures Cut(g0, n, nSide, [])[m] == g0[m] {
      CutListNone(g0[m].start, m, 0, n, nSide);
      CutListNone(g0[m].end, m, 1, n, nSide);
    }
  }

  /** Processing `t` does not touch a list none of whose entries is `t`'s
      reciprocal. */
  lemma {:induction false} CutListSame(L: seq<Triple>, m: string, s: int, n: string, nSide: int, done: seq<Triple>, t: Triple)
    requires forall y :: y in L && y.id == n && y.side == nSide ==> Triple(m, s, y.overlap) != t
    ensures CutList(L, m, s, n, nSide, done + [t]) == CutList(L, m, s, n, nSide, done)
    decreases |L|
  {
    if L != [] {
      assert L[0] in L;
      assert Cuts(L[0], m, s, n, nSide, done + [t]) <==> Cuts(L[0], m, s, n, nSide, done);
      forall y | y in L[1..] ensures y in L {
      }
      CutListSame(L[1..], m, s, n, nSide, done, t);
    }
  }

  /** Processing `t` removes its reciprocal from the one list that holds it. */
  lemma {:induction false} CutListRemove(L: seq<Triple>, m: string, s: int, n: string, nSide: int, done: seq<Triple>, t: Triple)
    requires t.id == m && t.side == s && t !in done
    requires NoDup(L) && Triple(n, nSide, t.overlap) in L
    ensures Triple(n, nSide, t.overlap) in CutList(L, m, s, n, nSide, done)
    ensures RemoveFirst(CutList(L, m, s, n, nSide, done), Triple(n, nSide, t.overlap))
         == CutList(L, m, s, n, nSide, done + [t])
    decreases |L|
  {
    var x := Triple(n, nSide, t.overlap);
    var R := CutList(L[1..], m, s, n, nSide, done);
    if L[0] == x {
      CutListRemoveHead(L, m, s, n, nSide, done, t);
    } else {
      NoDupTail(L);
      assert x in L[1..] by {
        assert L == [L[0]] + L[1..];
      }
      CutListRemove(L[1..], m, s, n, nSide, done, t);
      var R' := CutList(L[1..], m, s, n, nSide, done + [t]);
      assert RemoveFirst(R, x) == R';
      if Cuts(L[0], m, s, n, nSide, done) {
        assert Cuts(L[0], m, s, n, nSide, done + [t]);
      } else {
        assert !Cuts(L[0], m, s, n, nSide, done + [t]);
        var S := [L[0]] + R;
        assert CutList(L, m, s, n, nSide, done) == S;
        assert S[0] == L[0] && S[1..] == R;
        assert x in S;
        PastHead(S, x);
      }
    }
  }

  /** `CutListRemove` when the reciprocal heads the list. */
  lemma CutListRemoveHead(L: seq<Triple>, m: string, s: int, n: string, nSide: int, done: seq<Triple>, t: Triple)
    requires t.id == m && t.side == s && t !in done
    requires NoDup(L) && L != [] && L[0] == Triple(n, nSide, t.overlap)
    ensures Triple(n, nSide, t.overlap) in CutList(L, m, s, n, nSide, done)
    ensures RemoveFirst(CutList(L, m, s, n, nSide, done), Triple(n, nSide, t.overlap))
         == CutList(L, m, s, n, nSide, done + [t])
  {
    var x := Triple(n, nSide, t.overlap);
    NoDupTail(L);
    var R := CutList(L[1..], m, s, n, nSide, done);
    assert Triple(m, s, x.overlap) == t;
    assert !Cuts(x, m, s, n, nSide, done);
    assert Cuts(x, m, s, n, nSide, done + [t]);
    assert CutList(L, m, s, n, nSide, done) == [x] + R;
    assert ([x] + R)[0] == x && ([x] + R)[1..] == R;
    forall y | y in L[1..] && y.id == n && y.side == nSide ensures Triple(m, s, y.overlap) != t {
      assert y != x;
    }
    CutListSame(L[1..], m, s, n, nSide, done, t);
  }

  /** One `remove` call, seen on the whole table. */
  lemma CutStep(g0: NodeMap, n: string, nSide: int, done: seq<Triple>, t: Triple)
    requires NoDupLists(g0)
    requires t.id in g0 && (t.side == 0 || t.side == 1) && t !in done
    requires Triple(n, nSide, t.overlap) in SideList(g0[t.id], t.side)
    ensures Unlink(Cut(g0, n, nSide, done), n, nSide, t) == Some(Cut(g0, n, nSide, done + [t]))
  {
    var g := Cut(g0, n, nSide, done);
    var h := Cut(g0, n, nSide, done + [t]);
    var x := Triple(n, nSide, t.overlap);
    CutStepHere(g0, n, nSide, done, t);
    CutStepElsewhere(g0, n, nSide, done, t);
    var g' := g[t.id := WithSideList(g[t.id], t.side, RemoveFirst(SideList(g[t.id], t.side), x))];
    assert g'.Keys == h.Keys;
    forall k | k in h ensures g'[k] == h[k] {
      if k != t.id {
        assert g'[k] == g[k];
      }
    }
    assert g' == h;
  }

  /** The list that holds the reciprocal loses it; the other side of that
      node stays. */
  lemma CutStepHere(g0: NodeMap, n: string, nSide: int, done: seq<Triple>, t: Triple)
    requires NoDupLists(g0)
    requires t.id in g0 && (t.side == 0 || t.side == 1) && t !in done
    requires Triple(n, nSide, t.overlap) in SideList(g0[t.id], t.side)
    ensures var g := Cut(g0, n, nSide, done);
      && Triple(n, nSide, t.overlap) in SideList(g[t.id], t.side)
      && WithSideList(g[t.id], t.side, RemoveFirst(SideList(g[t.id], t.side), Triple(n, nSide, t.overlap)))
         == Cut(g0, n, nSide, done + [t])[t.id]
  {
    var m := t.id;
    var before := done;
    var after := done + [t];
    assert Cut(g0, n, nSide, before)[m]
      == g0[m].(start := CutList(g0[m].start, m, 0, n, nSide, before), end := CutList(g0[m].end, m, 1, n, nSide, before));
    assert Cut(g0, n, nSide, after)[m]
      == g0[m].(start := CutList(g0[m].start, m, 0, n, nSide, after), end := CutList(g0[m].end, m, 1, n, nSide, after));
    if t.side == 1 {
      CutListRemove(g0[m].end, m, 1, n, nSide, before, t);
      CutListSame(g0[m].start, m, 0, n, nSide, before, t);
    } else {
      CutListRemove(g0[m].start, m, 0, n, nSide, before, t);
      CutListSame(g0[m].end, m, 1, n, nSide, before, t);
    }
  }

  /** Nodes other than `t.id` are untouched by processing `t`. */
  lemma CutStepElsewhere(g0: NodeMap, n: string, nSide: int, done: seq<Triple>, t: Triple)
    ensures forall k :: k in g0 && k != t.id ==> Cut(g0, n, nSide, done)[k] == Cut(g0, n, nSide, done + [t])[k]
  {
    forall k | k in g0 && k != t.id ensures Cut(g0, n, nSide, done)[k] == Cut(g0, n, nSide, done + [t])[k] {
      CutListSame(g0[k].start, k, 0, n, nSide, done, t);
      CutListSame(g0[k].end, k, 1, n, nSide, done, t);
    }
  }

  /** Every entry of `ts` has its reciprocal `(n, nSide, overlap)` in place. */
  ghost predicate Ready(g0: NodeMap, n: string, nSide: int, ts: seq<Triple>) {
    forall t :: t in ts ==>
      t.id in g0 && (t.side == 0 || t.side == 1) && Triple(n, nSide, t.overlap) in SideList(g0[t.id], t.side)
  }

  /** A whole loop of `remove_node` over duplicate-free entries whose
      reciprocals are all present. */
  lemma {:induction false} UnlinkAllCut(g0: NodeMap, n: string, nSide: int, done: seq<Triple>)
    requires NoDupLists(g0) && NoDup(done) && Ready(g0, n, nSide, done)
    ensures UnlinkAll(g0, n, nSide, done) == Some(Cut(g0, n, nSide, done))
    decreases |done|
  {
    if done == [] {
      CutNone(g0, n, nSide);
    } else {
      var k := |done| - 1;
      var t := done[k];
      assert done == done[..k] + [t];
      assert t !in done[..k];
      assert t in done;
      UnlinkAllCut(g0, n, nSide, done[..k]);
      CutStep(g0, n, nSide, done[..k], t);
    }
  }

  /** After both loops, a list of another node has lost exactly the entries
      naming `n`. */
  lemma {:induction false} CutTwice(L: seq<Triple>, m: string, s: int, n: string, S: seq<Triple>, E: seq<Triple>)
    requires forall y :: y in L && y.id == n ==>
      (y.side == 0 && Triple(m, s, y.overlap) in S) || (y.side == 1 && Triple(m, s, y.overlap) in E)
    ensures CutList(CutList(L, m, s, n, 0, S), m, s, n, 1, E) == Drop(L, n)
    decreases |L|
  {
    if L != [] {
      assert L[0] in L;
      forall y | y in L[1..] ensures y in L {
      }
      CutTwice(L[1..], m, s, n, S, E);
      var R := CutList(L[1..], m, s, n, 0, S);
      if !Cuts(L[0], m, s, n, 0, S) {
        assert CutList(L, m, s, n, 0, S) == [L[0]] + R;
        assert ([L[0]] + R)[0] == L[0] && ([L[0]] + R)[1..] == R;
      }
    }
  }

  /** Edge symmetry and duplicate-free lists guarantee that `remove_node(n)`
      raises nothing and leaves exactly `Purge(g, n)`: `n` is gone and no
      remaining entry names it, while every other entry stays, in order. */
  lemma RemovedNodeIsPurge(g: NodeMap, n: string)
    requires Symmetric(g) && NoDupLists(g) && n in g
    ensures RemovedNode(g, n) == Some(Purge(g, n))
  {
    var S := g[n].start;
    FirstLoopReady(g, n);
    UnlinkAllCut(g, n, 0, S);
    var g1 := Cut(g, n, 0, S);
    CutNoDup(g, n, 0, S);
    var E := g1[n].end;
    SecondLoopReady(g, n);
    UnlinkAllCut(g1, n, 1, E);
    BothLoopsPurge(g, n);
  }

  lemma FirstLoopReady(g: NodeMap, n: string)
    requires Symmetric(g) && n in g
    ensures Ready(g, n, 0, g[n].start)
  {
    forall t | t in g[n].start
      ensures t.id in g && (t.side == 0 || t.side == 1) && Triple(n, 0, t.overlap) in SideList(g[t.id], t.side)
    {
      assert t in SideList(g[n], 0);
    }
  }

  /** The entries of `end` that survive the first loop still find their
      reciprocals: the first loop only removed entries on side 0. */
  lemma SecondLoopReady(g: NodeMap, n: string)
    requires Symmetric(g) && NoDupLists(g) && n in g
    ensures var g1 := Cut(g, n, 0, g[n].start);
      NoDup(g1[n].end) && Ready(g1, n, 1, g1[n].end)
  {
    var S := g[n].start;
    var g1 := Cut(g, n, 0, S);
    var E := g1[n].end;
    assert E == CutList(g[n].end, n, 1, n, 0, S);
    CutListNoDup(g[n].end, n, 1, n, 0, S);
    forall t | t in E
      ensures t.id in g1 && (t.side == 0 || t.side == 1) && Triple(n, 1, t.overlap) in SideList(g1[t.id], t.side)
    {
      CutListMember(g[n].end, n, 1, n, 0, S, t);
      assert t in SideList(g[n], 1);
      var x := Triple(n, 1, t.overlap);
      assert x in SideList(g[t.id], t.side);
      assert SideList(g1[t.id], t.side) == CutList(SideList(g[t.id], t.side), t.id, t.side, n, 0, S);
      CutListMember(SideList(g[t.id], t.side), t.id, t.side, n, 0, S, x);
    }
  }

  lemma BothLoopsPurge(g: NodeMap, n: string)
    requires Symmetric(g) && n in g
    ensures var g1 := Cut(g, n, 0, g[n].start);
      Cut(g1, n, 1, g1[n].end) - {n} == Purge(g, n)
  {
    var g1 := Cut(g, n, 0, g[n].start);
    var g2 := Cut(g1, n, 1, g1[n].end);
    forall m | m in g && m != n ensures g2[m] == Purge(g, n)[m] {
      BothLoopsAt(g, n, m);
    }
    assert g2 - {n} == Purge(g, n);
  }

  lemma BothLoopsAt(g: NodeMap, n: string, m: string)
    requires Symmetric(g) && n in g && m in g && m != n
    ensures var g1 := Cut(g, n, 0, g[n].start);
      Cut(g1, n, 1, g1[n].end)[m] == Purge(g, n)[m]
  {
    var S := g[n].start;
    var g1 := Cut(g, n, 0, S);
    var E := g1[n].end;
    OthersLosePurged(g, n, m, 0, E);
    OthersLosePurged(g, n, m, 1, E);
    CutTwice(g[m].start, m, 0, n, S, E);
    CutTwice(g[m].end, m, 1, n, S, E);
  }

  /** An entry of another node naming `n` has its reciprocal on the side of
      `n` it names, so one of the two loops removes it. */
  lemma OthersLosePurged(g: NodeMap, n: string, m: string, s: int, E: seq<Triple>)
    requires Symmetric(g) && n in g && m in g && m != n && (s == 0 || s == 1)
    requires E == CutList(g[n].end, n, 1, n, 0, g[n].start)
    ensures forall y :: y in SideList(g[m], s) && y.id == n ==>
      (y.side == 0 && Triple(m, s, y.overlap) in g[n].start) || (y.side == 1 && Triple(m, s, y.overlap) in E)
  {
    forall y | y in SideList(g[m], s) && y.id == n
      ensures (y.side == 0 && Triple(m, s, y.overlap) in g[n].start) || (y.side == 1 && Triple(m, s, y.overlap) in E)
    {
      var back := Triple(m, s, y.overlap);
      assert back in SideList(g[n], y.side);
      CutListMember(g[n].end, n, 1, n, 0, g[n].start, back);
    }
  }

  // ---------------------------------------------------------------------
  // What Purge keeps and what it establishes

  /** No remaining entry names the removed node. */
  lemma PurgeForgets(g: NodeMap, n: string)
    ensures n !in Purge(g, n)
    ensures forall m, t :: m in Purge(g, n) && (t in Purge(g, n)[m].start || t in Purge(g, n)[m].end) ==> t.id != n
  {
  }

  /** Removal keeps edge symmetry and duplicate-free lists. */
  lemma PurgeKeepsInvariants(g: NodeMap, n: string)
    requires Symmetric(g) && NoDupLists(g)
    ensures Symmetric(Purge(g, n)) && NoDupLists(Purge(g, n))
  {
    var p := Purge(g, n);
    forall a, sa, t | a in p && (sa == 0 || sa == 1) && t in SideList(p[a], sa)
      ensures t.id in p && (t.side == 0 || t.side == 1) && Triple(a, sa, t.overlap) in SideList(p[t.id], t.side)
    {
      assert t in SideList(g[a], sa);
      assert Triple(a, sa, t.overlap) in SideList(g[t.id], t.side);
    }
  }

  /** A node that shares no edge with the removed one keeps its record. */
  lemma PurgeUntouched(g: NodeMap, n: string, m: string)
    requires m in g && m != n
    requires forall t :: (t in g[m].start || t in g[m].end) ==> t.id != n
    ensures m in Purge(g, n) && Purge(g, n)[m] == g[m]
  {
    DropNothing(g[m].start, n);
    DropNothing(g[m].end, n);
  }

  lemma {:induction false} DropNothing(L: seq<Triple>, n: string)
    requires forall t :: t in L ==> t.id != n
    ensures Drop(L, n) == L
    decreases |L|
  {
    if L != [] {
      assert L[0] in L;
      DropNothing(L[1..], n);
      assert L == [L[0]] + L[1..];
    }
  }

  // ---------------------------------------------------------------------
  // Lonely nodes

  predicate Lonely(n: Node) {
    |n.Neighbors()| == 0
  }

  /** The table after `remove_lonely_nodes`. */
  function WithoutLonely(g: NodeMap): NodeMap {
    map k | k in g && !Lonely(g[k]) :: g[k]
  }

  /** Removing a node without edges is just the `del`. */
  lemma RemovedLonely(g: NodeMap, n: string)
    requires n in g && Lonely(g[n])
    ensures RemovedNode(g, n) == Some(g - {n})
  {
    NeighborsEmpty(g[n]);
  }

  /** Under edge symmetry no entry names a lonely node, so dropping all
      lonely nodes keeps edge symmetry. */
  lemma WithoutLonelySymmetric(g: NodeMap)
    requires Symmetric(g)
    ensures Symmetric(WithoutLonely(g))
  {
    var w := WithoutLonely(g);
    forall a, sa, t | a in w && (sa == 0 || sa == 1) && t in SideList(w[a], sa)
      ensures t.id in w && (t.side == 0 || t.side == 1) && Triple(a, sa, t.overlap) in SideList(w[t.id], t.side)
    {
      assert t in SideList(g[a], sa);
      var back := Triple(a, sa, t.overlap);
      assert back in SideList(g[t.id], t.side);
      NotLonely(g[t.id], t.side, back);
    }
  }

  /** A node with an entry on some side has neighbours. */
  lemma NotLonely(x: Node, s: int, y: Triple)
    requires y in SideList(x, s)
    ensures !Lonely(x)
  {
    NeighborsEmpty(x);
  }
}
