/**
 * Decoding GFA 1 text into the node table (`read_gfa` in
 * GFASubgraph/graph_io.py). The file is given as its lines, each with its
 * line terminator, as Python's file iteration yields them. All segment
 * (`S`) lines are read in a first pass that also sets the link (`L`) lines
 * aside; the links are then applied in file order.
 */
module GfaRead {
  import opened Wrappers
  import opened Text
  import opened Nodes
  import opened Adjacency

  /** The exceptions `read_gfa` lets escape: a missing field, an overlap
      that is not an integer, a link naming an unknown segment. */
  datatype ReadError = IndexError | ValueError | KeyError(key: string)

  predicate StartsWith(s: string, p: string) {
    |p| <= |s| && s[..|p|] == p
  }

  // ---------------------------------------------------------------------
  // Segment lines

  /** An `S` line split on tabs: the id is field 2, the sequence field 3
      stripped, the length that of field 3 before stripping, the tags the
      remaining fields joined back with tabs. */
  function ParseSegment(line: string): (r: Result<Node, ReadError>)
    ensures r.Ok? <==> |Split(line, '\t')| >= 3
    ensures r.Ok? ==> r.value.start == [] && r.value.end == [] && !r.value.visited
  {
    var f := Split(line, '\t');
    if |f| < 3 then Err(IndexError)
    else
      var n := NewNode(f[1]).(seqLen := |f[2]|, sequence := Strip(f[2]));
      Ok(if |f| > 3 then n.(optional := Join(f[3..], '\t')) else n)
  }

  // ---------------------------------------------------------------------
  // Link lines

  /** A decoded `L` line: `from` and `to` ids, whether the origin
      orientation is `-` (the link leaves the start of `from`) and whether
      the destination orientation is `-` (it enters the end of `to`). */
  datatype Link = Link(from: string, fromStart: bool, to: string, toEnd: bool, overlap: int)

  /** An `L` line split on whitespace; the overlap is field 6 without its
      last character (the CIGAR `M`), read as an integer. */
  function ParseLink(line: string): (r: Result<Link, ReadError>)
    ensures r.Err? ==> r.error == IndexError || r.error == ValueError
    ensures |SplitWs(line)| < 6 <==> r == Err(IndexError)
    ensures |SplitWs(line)| >= 6 ==>
      (r.Err? <==> ParseInt(SplitWs(line)[5][..|SplitWs(line)[5]| - 1]).Err?)
  {
    var f := SplitWs(line);
    if |f| < 6 then Err(IndexError)
    else
      match ParseInt(f[5][..|f[5]| - 1])
      case Err(_) => Err(ValueError)
      case Ok(ov) => Ok(Link(f[1], f[2] == "-", f[3], f[4] == "-", ov))
  }

  /** `ts.append(x)` unless `x in ts`. */
  function AddIfAbsent(ts: seq<Triple>, x: Triple): (r: seq<Triple>)
    ensures forall y :: y in r <==> y in ts || y == x
    ensures NoDup(ts) ==> NoDup(r)
  {
    if x in ts then ts else ts + [x]
  }

  /** Adding `t` to side `side` of `a`, unless it is already there. */
  function Attach(g: NodeMap, a: string, side: int, t: Triple): NodeMap
    requires a in g
  {
    g[a := WithSideList(g[a], side, AddIfAbsent(SideList(g[a], side), t))]
  }

  /** The side of `from` a link leaves and the side of `to` it enters. */
  function FromSide(l: Link): int {
    if l.fromStart then 0 else 1
  }

  function ToSide(l: Link): int {
    if l.toEnd then 1 else 0
  }

  /** The pair of `Attach` calls `AddLink` makes. */
  function Pair(g: NodeMap, l: Link): NodeMap
    requires l.from in g && l.to in g
  {
    Attach(Attach(g, l.from, FromSide(l), Triple(l.to, ToSide(l), l.overlap)),
           l.to, ToSide(l), Triple(l.from, FromSide(l), l.overlap))
  }

  /** The four orientation branches of `read_gfa`. Each stores both halves
      of the edge, the one on `from` first; `nodes[k]` is looked up
      before `nodes[neighbor]`. The result is the single rule: on side
      `FromSide` of `from` the entry `(to, ToSide, overlap)`, on side
      `ToSide` of `to` the entry `(from, FromSide, overlap)`. */
  function AddLink(g: NodeMap, l: Link): (r: Result<NodeMap, ReadError>)
    ensures r.Ok? <==> l.from in g && l.to in g
    ensures r.Err? ==> r.error == KeyError(if l.from !in g then l.from else l.to)
    ensures r.Ok? ==> r.value == Pair(g, l)
  {
    var k := l.from;
    var y := l.to;
    var ov := l.overlap;
    if k !in g then Err(KeyError(k))
    else if l.fromStart && l.toEnd then
      var g1 := g[k := g[k].(start := AddIfAbsent(g[k].start, Triple(y, 1, ov)))];
      if y !in g1 then Err(KeyError(y))
      else Ok(g1[y := g1[y].(end := AddIfAbsent(g1[y].end, Triple(k, 0, ov)))])
    else if l.fromStart && !l.toEnd then
      var g1 := g[k := g[k].(start := AddIfAbsent(g[k].start, Triple(y, 0, ov)))];
      if y !in g1 then Err(KeyError(y))
      else Ok(g1[y := g1[y].(start := AddIfAbsent(g1[y].start, Triple(k, 0, ov)))])
    else if !l.fromStart && !l.toEnd then
      var g1 := g[k := g[k].(end := AddIfAbsent(g[k].end, Triple(y, 0, ov)))];
      if y !in g1 then Err(KeyError(y))
      else Ok(g1[y := g1[y].(start := AddIfAbsent(g1[y].start, Triple(k, 1, ov)))])
    else
      var g1 := g[k := g[k].(end := AddIfAbsent(g[k].end, Triple(y, 1, ov)))];
      if y !in g1 then Err(KeyError(y))
      else Ok(g1[y := g1[y].(end := AddIfAbsent(g1[y].end, Triple(k, 1, ov)))])
  }

  /** The orientation table, row by row. */
  lemma OrientationTable(g: NodeMap, k: string, y: string, ov: int)
    requires k in g && y in g
    ensures var r := AddLink(g, Link(k, true, y, true, ov)).value;
      Triple(y, 1, ov) in r[k].start && Triple(k, 0, ov) in r[y].end
    ensures var r := AddLink(g, Link(k, true, y, false, ov)).value;
      Triple(y, 0, ov) in r[k].start && Triple(k, 0, ov) in r[y].start
    ensures var r := AddLink(g, Link(k, false, y, false, ov)).value;
      Triple(y, 0, ov) in r[k].end && Triple(k, 1, ov) in r[y].start
    ensures var r := AddLink(g, Link(k, false, y, true, ov)).value;
      Triple(y, 1, ov) in r[k].end && Triple(k, 1, ov) in r[y].end
  {
  }

  /** Attaching only ever adds the one entry. */
  lemma AttachGrows(g: NodeMap, a: string, side: int, t: Triple, b: string, s: int, y: Triple)
    requires a in g && b in g && (side == 0 || side == 1)
    ensures b in Attach(g, a, side, t)
    ensures y in SideList(Attach(g, a, side, t)[b], s) <==>
      y in SideList(g[b], s) || (b == a && (s == 1 <==> side == 1) && y == t)
  {
  }

  /** Adding both halves of an edge between table nodes keeps edge
      symmetry, duplicate-free lists and ids equal to keys. */
  lemma AddLinkKeeps(g: NodeMap, l: Link)
    requires Symmetric(g) && NoDupLists(g) && WellKeyed(g)
    requires l.from in g && l.to in g
    ensures var r := AddLink(g, l).value;
      Symmetric(r) && NoDupLists(r) && WellKeyed(r) && r.Keys == g.Keys
  {
    PairSymmetric(g, l);
    PairNoDup(g, l);
  }

  lemma PairSymmetric(g: NodeMap, l: Link)
    requires Symmetric(g) && l.from in g && l.to in g
    ensures Symmetric(Pair(g, l))
  {
    var r := Pair(g, l);
    forall a, sa, t | a in r && (sa == 0 || sa == 1) && t in SideList(r[a], sa)
      ensures t.id in r && (t.side == 0 || t.side == 1) && Triple(a, sa, t.overlap) in SideList(r[t.id], t.side)
    {
      PairSymmetricAt(g, l, a, sa, t);
    }
  }

  lemma PairNoDup(g: NodeMap, l: Link)
    requires NoDupLists(g) && WellKeyed(g) && l.from in g && l.to in g
    ensures NoDupLists(Pair(g, l)) && WellKeyed(Pair(g, l)) && Pair(g, l).Keys == g.Keys
  {
    var r := Pair(g, l);
    forall a | a in r ensures NoDup(r[a].start) && NoDup(r[a].end) {
      assert r[a].start == SideList(r[a], 0) && r[a].end == SideList(r[a], 1);
    }
  }

  /** The symmetry condition for one entry of the table after both halves
      are added. */
  lemma PairSymmetricAt(g: NodeMap, l: Link, a: string, sa: int, t: Triple)
    requires Symmetric(g) && l.from in g && l.to in g
    requires var r := Pair(g, l);
      a in r && (sa == 0 || sa == 1) && t in SideList(r[a], sa)
    ensures var r := Pair(g, l);
      t.id in r && (t.side == 0 || t.side == 1) && Triple(a, sa, t.overlap) in SideList(r[t.id], t.side)
  {
    var ks, ns := FromSide(l), ToSide(l);
    var x := Triple(l.to, ns, l.overlap);
    var back := Triple(l.from, ks, l.overlap);
    var g1 := Attach(g, l.from, ks, x);
    AttachGrows(g1, l.to, ns, back, a, sa, t);
    AttachGrows(g, l.from, ks, x, a, sa, t);
    if t in SideList(g[a], sa) {
      var m := Triple(a, sa, t.overlap);
      assert m in SideList(g[t.id], t.side);
      AttachGrows(g, l.from, ks, x, t.id, t.side, m);
      AttachGrows(g1, l.to, ns, back, t.id, t.side, m);
    } else if t == x {
      AttachGrows(g1, l.to, ns, back, l.to, ns, back);
    } else {
      AttachGrows(g, l.from, ks, x, l.from, ks, x);
      AttachGrows(g1, l.to, ns, back, l.from, ks, x);
    }
  }

  /** Repeating a link line changes nothing: the membership tests find both
      halves already stored. */
  lemma AddLinkIdempotent(g: NodeMap, l: Link)
    requires l.from in g && l.to in g
    ensures AddLink(AddLink(g, l).value, l) == AddLink(g, l)
  {
    var ks, ns := FromSide(l), ToSide(l);
    var x := Triple(l.to, ns, l.overlap);
    var back := Triple(l.from, ks, l.overlap);
    var g1 := Attach(g, l.from, ks, x);
    var r := Attach(g1, l.to, ns, back);
    AttachGrows(g1, l.to, ns, back, l.from, ks, x);
    AttachGrows(g, l.from, ks, x, l.from, ks, x);
    AttachGrows(g1, l.to, ns, back, l.to, ns, back);
    AttachPresent(r, l.from, ks, x);
    AttachPresent(r, l.to, ns, back);
  }

  /** Attaching an entry that is already there changes nothing. */
  lemma AttachPresent(g: NodeMap, a: string, side: int, t: Triple)
    requires a in g && (side == 0 || side == 1) && t in SideList(g[a], side)
    ensures Attach(g, a, side, t) == g
  {
    assert WithSideList(g[a], side, SideList(g[a], side)) == g[a];
  }

  // ---------------------------------------------------------------------
  // The two passes

  datatype Scan = Scan(nodes: NodeMap, edges: seq<string>)

  /** The first pass over one line: an `S` line (re)places its node, an
      `L` line is set aside, any other line is ignored. */
  function ScanLine(sc: Scan, line: string): Result<Scan, ReadError> {
    if StartsWith(line, "S") then
      match ParseSegment(line)
      case Err(e) => Err(e)
      case Ok(n) => Ok(Scan(sc.nodes[n.id := n], sc.edges))
    else if StartsWith(line, "L") then Ok(Scan(sc.nodes, sc.edges + [line]))
    else Ok(sc)
  }

  function ScanLines(lines: seq<string>): Result<Scan, ReadError>
    decreases |lines|
  {
    if lines == [] then Ok(Scan(map[], []))
    else
      match ScanLines(lines[..|lines| - 1])
      case Err(e) => Err(e)
      case Ok(sc) => ScanLine(sc, lines[|lines| - 1])
  }

  /** The second pass: each set-aside link line, in order. */
  function ApplyLinks(g: NodeMap, edges: seq<string>): Result<NodeMap, ReadError>
    decreases |edges|
  {
    if edges == [] then Ok(g)
    else
      match ApplyLinks(g, edges[..|edges| - 1])
      case Err(e) => Err(e)
      case Ok(g1) =>
        match ParseLink(edges[|edges| - 1])
        case Err(e) => Err(e)
        case Ok(l) => AddLink(g1, l)
  }

  /** `read_gfa` on the lines of a file. */
  function Decode(lines: seq<string>): Result<NodeMap, ReadError> {
    match ScanLines(lines)
    case Err(e) => Err(e)
    case Ok(sc) => ApplyLinks(sc.nodes, sc.edges)
  }

  lemma {:induction false} ScanErrSticks(lines: seq<string>, k: nat)
    requires k <= |lines| && ScanLines(lines[..k]).Err?
    ensures ScanLines(lines) == ScanLines(lines[..k])
    decreases |lines| - k
  {
    if k < |lines| {
      assert lines[..k + 1][..k] == lines[..k];
      ScanErrSticks(lines, k + 1);
    } else {
      assert lines[..k] == lines;
    }
  }

  lemma {:induction false} ApplyErrSticks(g: NodeMap, edges: seq<string>, k: nat)
    requires k <= |edges| && ApplyLinks(g, edges[..k]).Err?
    ensures ApplyLinks(g, edges) == ApplyLinks(g, edges[..k])
    decreases |edges| - k
  {
    if k < |edges| {
      assert edges[..k + 1][..k] == edges[..k];
      ApplyErrSticks(g, edges, k + 1);
    } else {
      assert edges[..k] == edges;
    }
  }

  /** `read_gfa` with its two loops. */
  method ReadGfa(lines: seq<string>) returns (r: Result<NodeMap, ReadError>)
    ensures r == Decode(lines)
  {
    var nodes: NodeMap := map[];
    var edges: seq<string> := [];
    for i := 0 to |lines|
      invariant ScanLines(lines[..i]) == Ok(Scan(nodes, edges))
    {
      assert lines[..i + 1][..i] == lines[..i];
      var line := lines[i];
      if StartsWith(line, "S") {
        var n := ParseSegment(line);
        if n.Err? {
          ScanErrSticks(lines, i + 1);
          return Err(n.error);
        }
        nodes := nodes[n.value.id := n.value];
      } else if StartsWith(line, "L") {
        edges := edges + [line];
      }
    }
    assert lines[..|lines|] == lines;
    ghost var g0 := nodes;
    for j := 0 to |edges|
      invariant ApplyLinks(g0, edges[..j]) == Ok(nodes)
    {
      assert edges[..j + 1][..j] == edges[..j];
      var l := ParseLink(edges[j]);
      if l.Err? {
        ApplyErrSticks(g0, edges, j + 1);
        return Err(l.error);
      }
      var next := AddLink(nodes, l.value);
      if next.Err? {
        ApplyErrSticks(g0, edges, j + 1);
        return Err(next.error);
      }
      nodes := next.value;
    }
    assert edges[..|edges|] == edges;
    r := Ok(nodes);
  }

  // ---------------------------------------------------------------------
  // What decoding guarantees

  /** After the first pass every node is stored under its id and has no
      edges yet. */
  lemma {:induction false} ScanFresh(lines: seq<string>)
    requires ScanLines(lines).Ok?
    ensures var g := ScanLines(lines).value.nodes;
      forall k :: k in g ==> g[k].id == k && g[k].start == [] && g[k].end == []
    decreases |lines|
  {
    if lines != [] {
      ScanFresh(lines[..|lines| - 1]);
    }
  }

  lemma {:induction false} ApplyKeeps(g: NodeMap, edges: seq<string>)
    requires Symmetric(g) && NoDupLists(g) && WellKeyed(g)
    requires ApplyLinks(g, edges).Ok?
    ensures var r := ApplyLinks(g, edges).value;
      Symmetric(r) && NoDupLists(r) && WellKeyed(r) && r.Keys == g.Keys
    decreases |edges|
  {
    if edges != [] {
      var pre := edges[..|edges| - 1];
      ApplyKeeps(g, pre);
      var g1 := ApplyLinks(g, pre).value;
      var l := ParseLink(edges[|edges| - 1]).value;
      AddLinkKeeps(g1, l);
    }
  }

  /** A decoded table stores every node under its id, stores both halves of
      every edge, and holds no entry twice on a side. */
  lemma DecodeWellFormed(lines: seq<string>)
    requires Decode(lines).Ok?
    ensures Symmetric(Decode(lines).value) && NoDupLists(Decode(lines).value) && WellKeyed(Decode(lines).value)
  {
    ScanFresh(lines);
    var sc := ScanLines(lines).value;
    ApplyKeeps(sc.nodes, sc.edges);
  }

  /** Lines that start with neither `S` nor `L` are ignored. */
  lemma ScanIgnores(lines: seq<string>, line: string)
    requires !StartsWith(line, "S") && !StartsWith(line, "L")
    ensures ScanLines(lines + [line]) == ScanLines(lines)
  {
    assert (lines + [line])[..|lines|] == lines;
  }

  /** A later `S` line for an id replaces the earlier node. */
  lemma LastSegmentWins(lines: seq<string>, line: string)
    requires StartsWith(line, "S") && ParseSegment(line).Ok? && ScanLines(lines).Ok?
    ensures var n := ParseSegment(line).value;
      ScanLines(lines + [line]) == Ok(Scan(ScanLines(lines).value.nodes[n.id := n], ScanLines(lines).value.edges))
  {
    assert (lines + [line])[..|lines|] == lines;
  }

  lemma {:induction false} ScanSameAfter(a: seq<string>, b: seq<string>, post: seq<string>)
    requires ScanLines(a) == ScanLines(b)
    ensures ScanLines(a + post) == ScanLines(b + post)
    decreases |post|
  {
    if post == [] {
      assert a + post == a && b + post == b;
    } else {
      var pre := post[..|post| - 1];
      ScanSameAfter(a, b, pre);
      assert (a + post)[..|a + post| - 1] == a + pre;
      assert (b + post)[..|b + post| - 1] == b + pre;
    }
  }

  /** Where a link line sits relative to a segment line does not matter:
      every segment is read before any link is applied. */
  lemma LinkBeforeSegment(pre: seq<string>, l: string, s: string, post: seq<string>)
    requires StartsWith(l, "L") && StartsWith(s, "S")
    ensures Decode(pre + [l, s] + post) == Decode(pre + [s, l] + post)
  {
    assert !StartsWith(l, "S") && !StartsWith(s, "L");
    var a := pre + [l, s];
    var b := pre + [s, l];
    assert a[..|a| - 1] == pre + [l] && (pre + [l])[..|pre|] == pre;
    assert b[..|b| - 1] == pre + [s] && (pre + [s])[..|pre|] == pre;
    ScanSameAfter(a, b, post);
  }
}
