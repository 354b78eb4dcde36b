/**
 * Reading back a written subset (`read_gfa` after `write_gfa`, both in
 * GFASubgraph/graph_io.py): the decoded table is the subgraph the subset
 * induces — its nodes are the requested table nodes, and each side holds
 * the entries whose neighbour was requested, as a set: `read_gfa` keeps
 * one copy of a repeated entry and does not keep the order.
 */
module GfaRoundTrip {
  import opened Wrappers
  import opened Text
  import opened Nodes
  import opened Adjacency
  import opened GfaRead
  import opened GfaWrite

  /** A table whose text `read_gfa` reads back: edge symmetry, nodes
      stored under their ids, ids and sequences free of whitespace, and
      tags free of line breaks. */
  ghost predicate Writable(g: NodeMap) {
    && Symmetric(g) && WellKeyed(g)
    && forall k :: k in g ==>
         && ValidId(k) && NoSpace(g[k].sequence)
         && '\n' !in g[k].optional && '\r' !in g[k].optional
  }

  /** The table after the first pass over the written lines. */
  function Fresh(g: NodeMap, order: seq<string>): NodeMap {
    map k | k in g && k in order :: ReadBack(k, g[k])
  }

  /** The `L` lines among the written lines, in order. */
  function EdgesOf(g: NodeMap, order: seq<string>, keep: seq<string>): seq<string>
    decreases |order|
  {
    if order == [] then []
    else
      var k := order[|order| - 1];
      EdgesOf(g, order[..|order| - 1], keep)
        + (if k in g then SideEdges(k, "-", g[k].start, keep) + SideEdges(k, "+", g[k].end, keep) else [])
  }

  // ---------------------------------------------------------------------
  // The first pass

  lemma EdgeLineStartsL(n1: string, o1: string, t: Triple)
    ensures StartsWith(EdgeLine(n1, o1, t), "L") && !StartsWith(EdgeLine(n1, o1, t), "S")
  {
    var d := if t.side == 0 then "+" else "-";
    JoinCons("L", [n1, o1, t.id, d, IntToStr(t.overlap) + "M\n"], '\t');
    var e := EdgeLine(n1, o1, t);
    assert e[0] == 'L';
    assert e[..1] == "L";
  }

  lemma SideEdgesAreL(n1: string, o1: string, ts: seq<Triple>, keep: seq<string>)
    ensures forall e :: e in SideEdges(n1, o1, ts, keep) ==> StartsWith(e, "L") && !StartsWith(e, "S")
  {
    SideEdgesSound(n1, o1, ts, keep);
    forall e | e in SideEdges(n1, o1, ts, keep) ensures StartsWith(e, "L") && !StartsWith(e, "S") {
      var t :| t in ts && t.id in keep && e == EdgeLine(n1, o1, t);
      EdgeLineStartsL(n1, o1, t);
    }
  }

  /** `L` lines are only set aside by the first pass. */
  lemma {:induction false} ScanLinkLines(a: seq<string>, es: seq<string>)
    requires ScanLines(a).Ok?
    requires forall e :: e in es ==> StartsWith(e, "L") && !StartsWith(e, "S")
    ensures ScanLines(a + es) == Ok(Scan(ScanLines(a).value.nodes, ScanLines(a).value.edges + es))
    decreases |es|
  {
    if es == [] {
      assert a + es == a;
      assert ScanLines(a).value.edges + es == ScanLines(a).value.edges;
    } else {
      var pre, e := es[..|es| - 1], es[|es| - 1];
      var sc := ScanLines(a).value;
      assert forall x :: x in pre ==> x in es;
      ScanLinkLines(a, pre);
      SnocSplit(a, es);
      assert e in es;
      assert ScanLines(a + es) == ScanLine(Scan(sc.nodes, sc.edges + pre), e);
      SnocJoin(sc.edges, es);
    }
  }

  lemma SnocSplit<T>(a: seq<T>, es: seq<T>)
    requires es != []
    ensures (a + es)[..|a + es| - 1] == a + es[..|es| - 1]
    ensures (a + es)[|a + es| - 1] == es[|es| - 1]
  {
  }

  lemma SnocJoin<T>(x: seq<T>, es: seq<T>)
    requires es != []
    ensures x + es[..|es| - 1] + [es[|es| - 1]] == x + es
  {
    LastSplit(es);
  }

  /** The first pass over the written lines stores a fresh node per
      requested table node and sets aside exactly the written `L` lines. */
  lemma {:induction false} ScanEmit(g: NodeMap, order: seq<string>, keep: seq<string>)
    requires Writable(g)
    ensures ScanLines(Emit(g, order, keep)) == Ok(Scan(Fresh(g, order), EdgesOf(g, order, keep)))
    decreases |order|
  {
    if order == [] {
      assert Fresh(g, order) == map[];
    } else {
      var pre := order[..|order| - 1];
      var k := order[|order| - 1];
      ScanEmit(g, pre, keep);
      var a := Emit(g, pre, keep);
      FreshStep(g, order);
      if k in g {
        ScanChunk(g, a, k, keep);
      } else {
        assert NodeChunk(g, k, keep) == [];
        assert Emit(g, order, keep) == a + [];
        assert a + [] == a;
        assert EdgesOf(g, order, keep) == EdgesOf(g, pre, keep) + [];
        assert EdgesOf(g, pre, keep) + [] == EdgesOf(g, pre, keep);
      }
    }
  }

  /** One more requested id adds at most its fresh node. */
  lemma FreshStep(g: NodeMap, order: seq<string>)
    requires order != []
    ensures var k := order[|order| - 1];
      Fresh(g, order) == if k in g then Fresh(g, order[..|order| - 1])[k := ReadBack(k, g[k])]
                         else Fresh(g, order[..|order| - 1])
  {
    var pre := order[..|order| - 1];
    var k := order[|order| - 1];
    assert forall x :: x in order <==> x in pre || x == k by {
      assert order == pre + [k];
    }
  }

  lemma LastSplit<T>(s: seq<T>)
    requires s != []
    ensures s == s[..|s| - 1] + [s[|s| - 1]]
  {
  }

  lemma Assoc<T>(x: seq<T>, y: seq<T>, z: seq<T>)
    ensures x + y + z == x + (y + z)
  {
  }

  /** The first pass over one node's chunk. */
  lemma ScanChunk(g: NodeMap, a: seq<string>, k: string, keep: seq<string>)
    requires Writable(g) && k in g && ScanLines(a).Ok?
    ensures var sc := ScanLines(a).value;
      ScanLines(a + NodeChunk(g, k, keep)) == Ok(Scan(sc.nodes[k := ReadBack(k, g[k])],
        sc.edges + (SideEdges(k, "-", g[k].start, keep) + SideEdges(k, "+", g[k].end, keep))))
  {
    var line := SegmentLine(k, g[k]);
    var sc := ScanLines(a).value;
    SegmentLineParses(k, g[k]);
    assert ReadBack(k, g[k]).id == k;
    LastSegmentWins(a, line);
    assert ScanLines(a + [line]) == Ok(Scan(sc.nodes[k := ReadBack(k, g[k])], sc.edges));
    var es := SideEdges(k, "-", g[k].start, keep) + SideEdges(k, "+", g[k].end, keep);
    SideEdgesAreL(k, "-", g[k].start, keep);
    SideEdgesAreL(k, "+", g[k].end, keep);
    ScanLinkLines(a + [line], es);
    assert NodeChunk(g, k, keep) == [line] + SideEdges(k, "-", g[k].start, keep) + SideEdges(k, "+", g[k].end, keep);
    Assoc([line], SideEdges(k, "-", g[k].start, keep), SideEdges(k, "+", g[k].end, keep));
    Assoc(a, [line], es);
  }

  // ---------------------------------------------------------------------
  // The second pass

  /** The decoded table so far lies inside the subgraph `keep` induces:
      the requested table nodes, with the fields the `S` lines carry, and
      side entries that `g` has too, naming requested neighbours. */
  ghost predicate Inside(h: NodeMap, g: NodeMap, keep: seq<string>) {
    InKeys(h, g, keep) && InShape(h, g) && InLists(h, g, keep)
  }

  ghost predicate InKeys(h: NodeMap, g: NodeMap, keep: seq<string>) {
    forall k :: k in h <==> k in g && k in keep
  }

  ghost predicate InShape(h: NodeMap, g: NodeMap) {
    forall k :: k in h && k in g ==> h[k].(start := [], end := []) == ReadBack(k, g[k])
  }

  ghost predicate InLists(h: NodeMap, g: NodeMap, keep: seq<string>) {
    forall k, s, t :: k in h && k in g && (s == 0 || s == 1) && t in SideList(h[k], s) ==> Listed(g, keep, k, s, t)
  }

  /** `g` stores `t` on side `s` of `k`, and `t` leads to a requested node. */
  ghost predicate Listed(g: NodeMap, keep: seq<string>, k: string, s: int, t: Triple)
    requires k in g
  {
    t in SideList(g[k], s) && t.id in keep
  }

  /** `h2` has the keys of `h1` and at least its side entries. */
  ghost predicate Grows(h1: NodeMap, h2: NodeMap) {
    h1.Keys == h2.Keys && forall k, s, t :: k in h1 && t in SideList(h1[k], s) ==> k in h2 && t in SideList(h2[k], s)
  }

  lemma GrowsTrans(h1: NodeMap, h2: NodeMap, h3: NodeMap)
    requires Grows(h1, h2) && Grows(h2, h3)
    ensures Grows(h1, h3)
  {
    forall k, s, t | k in h1 && t in SideList(h1[k], s) ensures k in h3 && t in SideList(h3[k], s) {
      assert t in SideList(h2[k], s);
    }
  }

  /** A link whose halves `g` already stores, between requested nodes. */
  ghost predicate GoodLink(g: NodeMap, keep: seq<string>, l: Link) {
    l.from in g && l.from in keep && l.to in keep
    && Triple(l.to, ToSide(l), l.overlap) in SideList(g[l.from], FromSide(l))
  }

  ghost predicate Good(g: NodeMap, keep: seq<string>, e: string) {
    ParseLink(e).Ok? && GoodLink(g, keep, ParseLink(e).value)
  }

  /** The entries a written `L` line stands for. */
  ghost predicate Covered(g: NodeMap, keep: seq<string>, k: string, s: int, t: Triple) {
    k in g && k in keep && (s == 0 || s == 1) && t in SideList(g[k], s) && t.id in keep
  }

  lemma AttachInside(h: NodeMap, g: NodeMap, keep: seq<string>, a: string, side: int, t: Triple)
    requires Inside(h, g, keep) && a in h && (side == 0 || side == 1)
    requires t in SideList(g[a], side) && t.id in keep
    ensures Inside(Attach(h, a, side, t), g, keep) && Grows(h, Attach(h, a, side, t))
  {
    var r := Attach(h, a, side, t);
    AttachInsideLists(h, g, keep, a, side, t);
    AttachGrowsAll(h, a, side, t);
    assert r.Keys == h.Keys;
    assert InKeys(r, g, keep);
    assert r[a].(start := [], end := []) == h[a].(start := [], end := []);
    assert InShape(r, g);
  }

  lemma AttachInsideLists(h: NodeMap, g: NodeMap, keep: seq<string>, a: string, side: int, t: Triple)
    requires InLists(h, g, keep) && a in h && (side == 0 || side == 1)
    requires a in g ==> t in SideList(g[a], side)
    requires t.id in keep
    ensures InLists(Attach(h, a, side, t), g, keep)
  {
    forall b, s, y | b in Attach(h, a, side, t) && b in g && (s == 0 || s == 1) && y in SideList(Attach(h, a, side, t)[b], s)
      ensures Listed(g, keep, b, s, y)
    {
      AttachInsideAt(h, g, keep, a, side, t, b, s, y);
    }
  }

  lemma AttachInsideAt(h: NodeMap, g: NodeMap, keep: seq<string>, a: string, side: int, t: Triple, b: string, s: int, y: Triple)
    requires InLists(h, g, keep) && a in h && (side == 0 || side == 1)
    requires a in g ==> t in SideList(g[a], side)
    requires t.id in keep
    requires b in Attach(h, a, side, t) && b in g && (s == 0 || s == 1) && y in SideList(Attach(h, a, side, t)[b], s)
    ensures y in SideList(g[b], s) && y.id in keep
  {
    assert b in h;
    AttachGrows(h, a, side, t, b, s, y);
    if y in SideList(h[b], s) {
      InListsAt(h, g, keep, b, s, y);
    } else {
      AttachedAt(g, keep, a, side, t, b, s, y);
    }
  }

  lemma AttachedAt(g: NodeMap, keep: seq<string>, a: string, side: int, t: Triple, b: string, s: int, y: Triple)
    requires a in g ==> t in SideList(g[a], side)
    requires t.id in keep && b in g && (s == 0 || s == 1) && (side == 0 || side == 1)
    requires b == a && (s == 1 <==> side == 1) && y == t
    ensures y in SideList(g[b], s) && y.id in keep
  {
    assert s == side;
  }

  lemma InListsAt(h: NodeMap, g: NodeMap, keep: seq<string>, k: string, s: int, t: Triple)
    requires InLists(h, g, keep) && k in h && k in g && (s == 0 || s == 1) && t in SideList(h[k], s)
    ensures t in SideList(g[k], s) && t.id in keep
  {
  }

  lemma AttachGrowsAll(h: NodeMap, a: string, side: int, t: Triple)
    requires a in h && (side == 0 || side == 1)
    ensures Grows(h, Attach(h, a, side, t))
  {
    var r := Attach(h, a, side, t);
    forall b, s, y | b in h && y in SideList(h[b], s) ensures b in r && y in SideList(r[b], s) {
      AttachGrows(h, a, side, t, b, s, y);
    }
  }

  lemma GoodAdd(h: NodeMap, g: NodeMap, keep: seq<string>, l: Link)
    requires Symmetric(g) && Inside(h, g, keep) && GoodLink(g, keep, l)
    ensures AddLink(h, l).Ok?
    ensures Inside(AddLink(h, l).value, g, keep) && Grows(h, AddLink(h, l).value)
  {
    var ks, ns := FromSide(l), ToSide(l);
    var x := Triple(l.to, ns, l.overlap);
    var back := Triple(l.from, ks, l.overlap);
    assert l.to in g && back in SideList(g[l.to], ns);
    var g1 := Attach(h, l.from, ks, x);
    AttachInside(h, g, keep, l.from, ks, x);
    AttachInside(g1, g, keep, l.to, ns, back);
    GrowsTrans(h, g1, Attach(g1, l.to, ns, back));
  }

  /** Every entry of `g` between requested nodes whose `L` line is among
      `lines` is stored in `h`. */
  ghost predicate Stored(h: NodeMap, g: NodeMap, keep: seq<string>, lines: seq<string>) {
    forall e :: e in lines ==> StoredLine(h, g, keep, e)
  }

  /** Every entry of `g` between requested nodes whose `L` line is `e` is
      stored in `h`. */
  ghost predicate StoredLine(h: NodeMap, g: NodeMap, keep: seq<string>, e: string) {
    forall k, s, t :: EdgeLine(k, Orient(s), t) == e && Covered(g, keep, k, s, t) ==>
      k in h && t in SideList(h[k], s)
  }

  /** Applying written `L` lines keeps the table inside the induced
      subgraph. */
  lemma {:induction false} ApplyWritten(g: NodeMap, keep: seq<string>, h0: NodeMap, edges: seq<string>)
    requires Writable(g) && Inside(h0, g, keep)
    requires forall e :: e in edges ==> Good(g, keep, e)
    ensures ApplyLinks(h0, edges).Ok?
    ensures Inside(ApplyLinks(h0, edges).value, g, keep) && Grows(h0, ApplyLinks(h0, edges).value)
    decreases |edges|
  {
    if edges != [] {
      var pre := edges[..|edges| - 1];
      var last := edges[|edges| - 1];
      assert forall e :: e in pre ==> e in edges;
      ApplyWritten(g, keep, h0, pre);
      var h1 := ApplyLinks(h0, pre).value;
      assert Good(g, keep, last) by {
        assert last in edges;
      }
      var l := ParseLink(last).value;
      GoodAdd(h1, g, keep, l);
      assert ApplyLinks(h0, edges) == AddLink(h1, l);
      GrowsTrans(h0, h1, AddLink(h1, l).value);
    }
  }

  /** Every written `L` line, once applied, has stored the entry it was
      written for. */
  lemma {:induction false} ApplyWrittenStores(g: NodeMap, keep: seq<string>, h0: NodeMap, edges: seq<string>)
    requires Writable(g) && Inside(h0, g, keep)
    requires forall e :: e in edges ==> Good(g, keep, e)
    ensures ApplyLinks(h0, edges).Ok?
    ensures Stored(ApplyLinks(h0, edges).value, g, keep, edges)
    decreases |edges|
  {
    ApplyWritten(g, keep, h0, edges);
    if edges != [] {
      var pre := edges[..|edges| - 1];
      var last := edges[|edges| - 1];
      assert forall e :: e in pre ==> e in edges;
      ApplyWritten(g, keep, h0, pre);
      ApplyWrittenStores(g, keep, h0, pre);
      var h1 := ApplyLinks(h0, pre).value;
      assert Good(g, keep, last) by {
        assert last in edges;
      }
      var l := ParseLink(last).value;
      assert ApplyLinks(h0, edges) == AddLink(h1, l);
      LastSplit(edges);
      LastLineStores(g, keep, h1, pre, last);
    }
  }

  /** Applying one more written `L` line keeps every entry stored so far
      and stores the entry that line was written for. */
  lemma LastLineStores(g: NodeMap, keep: seq<string>, h1: NodeMap, pre: seq<string>, last: string)
    requires Writable(g) && Inside(h1, g, keep) && Good(g, keep, last)
    requires Stored(h1, g, keep, pre)
    ensures AddLink(h1, ParseLink(last).value).Ok?
    ensures Stored(AddLink(h1, ParseLink(last).value).value, g, keep, pre + [last])
  {
    var l := ParseLink(last).value;
    LastLineStoresOne(g, keep, h1, last);
    GoodAdd(h1, g, keep, l);
    StoredAppend(h1, AddLink(h1, l).value, g, keep, pre, last);
  }

  /** A table grown from one that stores the entries of `pre`, and that
      stores the entries of `last`, stores those of `pre + [last]`. */
  lemma StoredAppend(h1: NodeMap, r: NodeMap, g: NodeMap, keep: seq<string>, pre: seq<string>, last: string)
    requires Stored(h1, g, keep, pre) && Grows(h1, r) && StoredLine(r, g, keep, last)
    ensures Stored(r, g, keep, pre + [last])
  {
    forall e | e in pre + [last] ensures StoredLine(r, g, keep, e) {
      if e in pre {
        StoredLineGrows(h1, r, g, keep, e);
      }
    }
  }

  /** What a table stores for an earlier line survives its growth. */
  lemma StoredLineGrows(h1: NodeMap, r: NodeMap, g: NodeMap, keep: seq<string>, e: string)
    requires StoredLine(h1, g, keep, e) && Grows(h1, r)
    ensures StoredLine(r, g, keep, e)
  {
    forall k, s, t | EdgeLine(k, Orient(s), t) == e && Covered(g, keep, k, s, t)
      ensures k in r && t in SideList(r[k], s)
    {
      assert k in h1 && t in SideList(h1[k], s);
    }
  }

  /** The entry the last line was written for is stored once it is read. */
  lemma LastLineStoresOne(g: NodeMap, keep: seq<string>, h1: NodeMap, last: string)
    requires Writable(g) && Inside(h1, g, keep) && Good(g, keep, last)
    ensures AddLink(h1, ParseLink(last).value).Ok?
    ensures StoredLine(AddLink(h1, ParseLink(last).value).value, g, keep, last)
  {
    GoodAdd(h1, g, keep, ParseLink(last).value);
    forall k, s, t | EdgeLine(k, Orient(s), t) == last && Covered(g, keep, k, s, t)
      ensures k in AddLink(h1, ParseLink(last).value).value
      ensures t in SideList(AddLink(h1, ParseLink(last).value).value[k], s)
    {
      EdgeLineRecreates(h1, k, s, t);
    }
  }

  /** The written `L` lines each stand for an entry of `g`. */
  lemma SideEdgesGood(g: NodeMap, keep: seq<string>, k: string, s: int)
    requires Writable(g) && k in g && k in keep && (s == 0 || s == 1)
    ensures forall e :: e in SideEdges(k, Orient(s), SideList(g[k], s), keep) ==> Good(g, keep, e)
  {
    var ts := SideList(g[k], s);
    SideEdgesSound(k, Orient(s), ts, keep);
    forall e | e in SideEdges(k, Orient(s), ts, keep) ensures Good(g, keep, e) {
      var t :| t in ts && t.id in keep && e == EdgeLine(k, Orient(s), t);
      EdgeLineParses(k, Orient(s), t);
      var l := Link(k, s == 0, t.id, t.side != 0, t.overlap);
      assert Triple(l.to, ToSide(l), l.overlap) == t;
    }
  }

  lemma {:induction false} EdgesOfGood(g: NodeMap, order: seq<string>, keep: seq<string>)
    requires Writable(g) && forall x :: x in order ==> x in keep
    ensures forall e :: e in EdgesOf(g, order, keep) ==> Good(g, keep, e)
    decreases |order|
  {
    if order != [] {
      var k := order[|order| - 1];
      EdgesOfGood(g, order[..|order| - 1], keep);
      if k in g {
        SideEdgesGood(g, keep, k, 0);
        SideEdgesGood(g, keep, k, 1);
      }
    }
  }

  /** Every entry between requested nodes has its `L` line. */
  lemma {:induction false} EdgesOfCover(g: NodeMap, order: seq<string>, keep: seq<string>, k: string, s: int, t: Triple)
    requires k in g && k in order && (s == 0 || s == 1) && t in SideList(g[k], s) && t.id in keep
    ensures EdgeLine(k, Orient(s), t) in EdgesOf(g, order, keep)
    decreases |order|
  {
    var pre := order[..|order| - 1];
    if order[|order| - 1] != k {
      assert k in pre;
      EdgesOfCover(g, pre, keep, k, s, t);
    } else if s == 0 {
      SideEdgesComplete(k, "-", g[k].start, keep, t);
    } else {
      SideEdgesComplete(k, "+", g[k].end, keep, t);
    }
  }

  // ---------------------------------------------------------------------
  // The round trip

  /** `h` is the subgraph of `g` that `subset` induces, as `read_gfa`
      stores it: exactly the requested table nodes, each with the id,
      sequence and tags the `S` line carries, and on each side exactly the
      entries of `g` whose neighbour was requested. */
  ghost predicate Induced(h: NodeMap, g: NodeMap, subset: seq<string>) {
    && (forall k :: k in h <==> k in g && k in subset)
    && (forall k :: k in h && k in g ==> h[k].(start := [], end := []) == ReadBack(k, g[k]))
    && (forall k, s, t :: k in h && k in g && (s == 0 || s == 1) ==>
          (t in SideList(h[k], s) <==> t in SideList(g[k], s) && t.id in subset))
  }

  /** Every string `write_gfa` writes for one side list is one line. */
  lemma SideEdgesLines(g: NodeMap, n1: string, o1: string, ts: seq<Triple>, keep: seq<string>)
    requires ValidId(n1) && (o1 == "-" || o1 == "+")
    requires forall t :: t in ts ==> ValidId(t.id)
    ensures forall e :: e in SideEdges(n1, o1, ts, keep) ==> OneLine(e)
  {
    SideEdgesSound(n1, o1, ts, keep);
    forall e | e in SideEdges(n1, o1, ts, keep) ensures OneLine(e) {
      var t :| t in ts && t.id in keep && e == EdgeLine(n1, o1, t);
      EdgeLineOneLine(n1, o1, t);
    }
  }

  lemma NodeChunkLines(g: NodeMap, n1: string, keep: seq<string>)
    requires Writable(g)
    ensures forall e :: e in NodeChunk(g, n1, keep) ==> OneLine(e)
  {
    if n1 in g {
      SegmentLineOneLine(n1, g[n1]);
      SymmetricClosed(g);
      SideEdgesLines(g, n1, "-", g[n1].start, keep);
      SideEdgesLines(g, n1, "+", g[n1].end, keep);
    }
  }

  lemma {:induction false} EmitLines(g: NodeMap, order: seq<string>, keep: seq<string>)
    requires Writable(g)
    ensures forall e :: e in Emit(g, order, keep) ==> OneLine(e)
    decreases |order|
  {
    if order != [] {
      EmitLines(g, order[..|order| - 1], keep);
      NodeChunkLines(g, order[|order| - 1], keep);
    }
  }

  /** Reading the written file back in text mode yields exactly the
      strings `write_gfa` wrote, one line each. */
  lemma WrittenFileLines(g: NodeMap, subset: seq<string>)
    requires Writable(g)
    ensures FileLines(Concat(Encode(g, subset))) == Encode(g, subset)
  {
    EmitLines(g, subset, subset);
    FileLinesOfConcat(Encode(g, subset));
  }

  /** `read_gfa` on the file `write_gfa(g, subset)` writes succeeds and
      yields the subgraph the subset induces: exactly the requested table
      nodes, each with the id, sequence and tags the `S` line carries, and
      on each side the entries of `g` whose neighbour was requested, as a
      set (order and repeated entries are not kept). */
  lemma EncodeDecode(g: NodeMap, subset: seq<string>)
    requires Writable(g)
    ensures Decode(FileLines(Concat(Encode(g, subset)))).Ok?
    ensures Induced(Decode(FileLines(Concat(Encode(g, subset)))).value, g, subset)
  {
    WrittenFileLines(g, subset);
    DecodeWritten(g, subset);
  }

  /** Decoding the written lines yields the induced subgraph. */
  lemma DecodeWritten(g: NodeMap, subset: seq<string>)
    requires Writable(g)
    ensures Decode(Encode(g, subset)).Ok?
    ensures Induced(Decode(Encode(g, subset)).value, g, subset)
  {
    ScanEmit(g, subset, subset);
    var h0 := Fresh(g, subset);
    var edges := EdgesOf(g, subset, subset);
    assert Decode(Encode(g, subset)) == ApplyLinks(h0, edges);
    FreshInside(g, subset);
    EdgesOfGood(g, subset, subset);
    ApplyWritten(g, subset, h0, edges);
    ApplyWrittenStores(g, subset, h0, edges);
    var h := ApplyLinks(h0, edges).value;
    DecodedCovers(g, subset, h, edges);
    assert InKeys(h, g, subset) && InShape(h, g) && InLists(h, g, subset);
  }

  lemma FreshInside(g: NodeMap, subset: seq<string>)
    ensures Inside(Fresh(g, subset), g, subset)
  {
    var h := Fresh(g, subset);
    forall k | k in h && k in g ensures h[k].(start := [], end := []) == ReadBack(k, g[k]) {
      assert h[k] == ReadBack(k, g[k]);
    }
    forall k, s, t | k in h && k in g && (s == 0 || s == 1) ensures t !in SideList(h[k], s) {
      assert h[k] == ReadBack(k, g[k]);
    }
  }

  lemma DecodedCovers(g: NodeMap, subset: seq<string>, h: NodeMap, edges: seq<string>)
    requires Writable(g) && edges == EdgesOf(g, subset, subset)
    requires InKeys(h, g, subset) && Stored(h, g, subset, edges)
    ensures forall k, s, t :: k in h && k in g && (s == 0 || s == 1) && t in SideList(g[k], s) && t.id in subset ==>
      t in SideList(h[k], s)
  {
    forall k, s, t | k in h && k in g && (s == 0 || s == 1) && t in SideList(g[k], s) && t.id in subset
      ensures t in SideList(h[k], s)
    {
      EdgesOfCover(g, subset, subset, k, s, t);
      assert Covered(g, subset, k, s, t);
      assert StoredLine(h, g, subset, EdgeLine(k, Orient(s), t));
    }
  }

  /** Writing every node and reading the text back restores the set of
      entries on every side of every node. Order is not kept, and an entry
      stored twice comes back once: `read_gfa` appends an entry only when it
      is absent. */
  lemma EncodeDecodeAll(g: NodeMap, subset: seq<string>)
    requires Writable(g) && forall k :: k in g ==> k in subset
    ensures Decode(FileLines(Concat(Encode(g, subset)))).Ok?
    ensures var h := Decode(FileLines(Concat(Encode(g, subset)))).value;
      && h.Keys == g.Keys
      && (forall k, s, t :: k in h && (s == 0 || s == 1) ==> (t in SideList(h[k], s) <==> t in SideList(g[k], s)))
  {
    EncodeDecode(g, subset);
    WholeSubgraph(g, subset, Decode(FileLines(Concat(Encode(g, subset)))).value);
  }

  /** For a table without repeated entries, which is what `read_gfa`
      itself builds, writing every node and reading the text back restores
      every side list up to the order of its entries. */
  lemma EncodeDecodeAllCounts(g: NodeMap, subset: seq<string>)
    requires Writable(g) && NoDupLists(g) && forall k :: k in g ==> k in subset
    ensures Decode(FileLines(Concat(Encode(g, subset)))).Ok?
    ensures var h := Decode(FileLines(Concat(Encode(g, subset)))).value;
      && h.Keys == g.Keys
      && forall k, s :: k in h && (s == 0 || s == 1) ==> multiset(SideList(h[k], s)) == multiset(SideList(g[k], s))
  {
    EncodeDecodeAll(g, subset);
    var lines := FileLines(Concat(Encode(g, subset)));
    var h := Decode(lines).value;
    DecodeWellFormed(lines);
    forall k, s | k in h && (s == 0 || s == 1)
      ensures multiset(SideList(h[k], s)) == multiset(SideList(g[k], s))
    {
      assert forall t :: t in SideList(h[k], s) <==> t in SideList(g[k], s);
      NoDupSameMultiset(SideList(h[k], s), SideList(g[k], s));
    }
  }

  /** The subgraph every node induces is the whole table. */
  lemma WholeSubgraph(g: NodeMap, subset: seq<string>, h: NodeMap)
    requires Symmetric(g) && forall k :: k in g ==> k in subset
    requires Induced(h, g, subset)
    ensures h.Keys == g.Keys
    ensures forall k, s, t :: k in h && (s == 0 || s == 1) ==> (t in SideList(h[k], s) <==> t in SideList(g[k], s))
  {
    assert forall k :: k in h <==> k in g;
    forall k, s, t | k in h && k in g && (s == 0 || s == 1)
      ensures t in SideList(h[k], s) <==> t in SideList(g[k], s)
    {
      if t.id !in subset {
        assert t !in SideList(g[k], s);
      }
    }
  }
}
