/**
 * Encoding a node subset as GFA 1 text (`write_gfa` in
 * GFASubgraph/graph_io.py). The output is the sequence of strings the
 * function writes, in order: per requested node one `S` line followed by
 * one `L` line per entry of its `start` and then its `end` list whose
 * neighbour is requested too.
 */
module GfaWrite {
  import opened Wrappers
  import opened Text
  import opened Nodes
  import opened Adjacency
  import opened GfaRead

  /** An id the writer and the reader agree on: non-empty and free of
      whitespace, so it survives both the tab split and `split()`. */
  predicate ValidId(s: string) {
    s != "" && NoSpace(s)
  }

  /** The `S` line of node `id`; the tags follow only when there are any. */
  function SegmentLine(id: string, n: Node): string {
    (if |n.optional| > 0 then Join(["S", id, n.sequence, n.optional], '\t')
     else Join(["S", id, n.sequence], '\t')) + "\n"
  }

  /** The origin orientation of the entries of a side: `-` for `start`,
      `+` for `end`. */
  function Orient(side: int): string {
    if side == 0 then "-" else "+"
  }

  /** The `L` line for entry `t` on the side of `n1` that `o1` names; the
      destination orientation is `+` exactly when the stored side is 0. */
  function EdgeLine(n1: string, o1: string, t: Triple): string {
    Join(["L", n1, o1, t.id, if t.side == 0 then "+" else "-", IntToStr(t.overlap) + "M\n"], '\t')
  }

  /** The `L` lines for one side list: one per entry whose neighbour is
      requested, in list order. */
  function SideEdges(n1: string, o1: string, ts: seq<Triple>, keep: seq<string>): (r: seq<string>)
    ensures |r| <= |ts|
    decreases |ts|
  {
    if ts == [] then []
    else
      var t := ts[|ts| - 1];
      SideEdges(n1, o1, ts[..|ts| - 1], keep) + (if t.id in keep then [EdgeLine(n1, o1, t)] else [])
  }

  /** Every entry whose neighbour is requested gets its line. */
  lemma {:induction false} SideEdgesComplete(n1: string, o1: string, ts: seq<Triple>, keep: seq<string>, t: Triple)
    requires t in ts && t.id in keep
    ensures EdgeLine(n1, o1, t) in SideEdges(n1, o1, ts, keep)
    decreases |ts|
  {
    var pre := ts[..|ts| - 1];
    if t != ts[|ts| - 1] {
      assert t in pre by {
        var i :| 0 <= i < |ts| && ts[i] == t;
        assert pre[i] == t;
      }
      SideEdgesComplete(n1, o1, pre, keep, t);
    }
  }

  /** Every line stands for an entry whose neighbour is requested. */
  lemma {:induction false} SideEdgesSound(n1: string, o1: string, ts: seq<Triple>, keep: seq<string>)
    ensures forall e :: e in SideEdges(n1, o1, ts, keep) ==>
      exists t :: t in ts && t.id in keep && e == EdgeLine(n1, o1, t)
    decreases |ts|
  {
    if ts != [] {
      var pre := ts[..|ts| - 1];
      var t := ts[|ts| - 1];
      SideEdgesSound(n1, o1, pre, keep);
      forall e | e in SideEdges(n1, o1, ts, keep) ensures exists y :: y in ts && y.id in keep && e == EdgeLine(n1, o1, y) {
        if e in SideEdges(n1, o1, pre, keep) {
          var y :| y in pre && y.id in keep && e == EdgeLine(n1, o1, y);
          assert y in ts;
        } else {
          assert t in ts && t.id in keep && e == EdgeLine(n1, o1, t);
        }
      }
    }
  }

  /** What `write_gfa` writes for one requested id: nothing for an id
      outside the table. */
  function NodeChunk(g: NodeMap, n1: string, keep: seq<string>): seq<string> {
    if n1 !in g then []
    else [SegmentLine(n1, g[n1])] + SideEdges(n1, "-", g[n1].start, keep) + SideEdges(n1, "+", g[n1].end, keep)
  }

  /** The chunks of the ids of `order`, each tested against `keep`. */
  function Emit(g: NodeMap, order: seq<string>, keep: seq<string>): seq<string>
    decreases |order|
  {
    if order == [] then []
    else Emit(g, order[..|order| - 1], keep) + NodeChunk(g, order[|order| - 1], keep)
  }

  /** `write_gfa(graph, set_of_nodes)`, the requested ids in iteration order. */
  function Encode(g: NodeMap, subset: seq<string>): seq<string> {
    Emit(g, subset, subset)
  }

  /** `write_gfa` with its loop over the requested ids. */
  method WriteGfa(g: NodeMap, subset: seq<string>) returns (out: seq<string>)
    ensures out == Encode(g, subset)
  {
    out := [];
    for i := 0 to |subset|
      invariant out == Emit(g, subset[..i], subset)
    {
      assert subset[..i + 1][..i] == subset[..i];
      var chunk := WriteNode(g, subset[i], subset);
      out := out + chunk;
    }
    assert subset[..|subset|] == subset;
  }

  /** One round of the loop of `write_gfa`: a requested id outside the
      table is skipped; otherwise its `S` line, then the `L` lines that
      `edges` collects for its `start` and then its `end` entries. */
  method WriteNode(g: NodeMap, n1: string, keep: seq<string>) returns (chunk: seq<string>)
    ensures chunk == NodeChunk(g, n1, keep)
  {
    if n1 !in g {
      return [];
    }
    var line := if |g[n1].optional| > 0 then Join(["S", n1, g[n1].sequence, g[n1].optional], '\t')
                else Join(["S", n1, g[n1].sequence], '\t');
    var edges := SideLoop(n1, "-", g[n1].start, keep);
    var more := SideLoop(n1, "+", g[n1].end, keep);
    chunk := [line + "\n"] + (edges + more);
    assert chunk == [SegmentLine(n1, g[n1])] + edges + more;
  }

  /** One of the two edge loops of `write_gfa`. */
  method SideLoop(n1: string, o1: string, ts: seq<Triple>, keep: seq<string>) returns (edges: seq<string>)
    ensures edges == SideEdges(n1, o1, ts, keep)
  {
    edges := [];
    for j := 0 to |ts|
      invariant edges == SideEdges(n1, o1, ts[..j], keep)
    {
      assert ts[..j + 1][..j] == ts[..j];
      var n := ts[j];
      var overlap := IntToStr(n.overlap) + "M\n";
      if n.id in keep {
        if n.side == 0 {
          edges := edges + [Join(["L", n1, o1, n.id, "+", overlap], '\t')];
        } else {
          edges := edges + [Join(["L", n1, o1, n.id, "-", overlap], '\t')];
        }
      }
    }
    assert ts[..|ts|] == ts;
  }

  // ---------------------------------------------------------------------
  // Reading back what was written

  /** The `L` line written for an entry splits into the six fields the
      reader expects and decodes to the link it came from. */
  lemma EdgeLineParses(n1: string, o1: string, t: Triple)
    requires ValidId(n1) && ValidId(t.id) && (o1 == "-" || o1 == "+")
    ensures ParseLink(EdgeLine(n1, o1, t)) == Ok(Link(n1, o1 == "-", t.id, t.side != 0, t.overlap))
  {
    var d := if t.side == 0 then "+" else "-";
    var ov := IntToStr(t.overlap);
    var head := ["L", n1, o1, t.id, d];
    var fields := head + [ov + "M"];
    JoinAppendLast(head, ov + "M", "\n", '\t');
    assert ov + "M" + "\n" == ov + "M\n";
    assert head + [ov + "M" + "\n"] == ["L", n1, o1, t.id, d, ov + "M\n"];
    assert head + [ov + "M"] == fields;
    assert EdgeLine(n1, o1, t) == Join(fields, '\t') + ['\n'];
    IntToStrNoSpace(t.overlap);
    assert NoSpace(ov + "M") by {
      forall i | 0 <= i < |ov + "M"| ensures !IsSpace((ov + "M")[i]) {
        if i < |ov| {
          assert (ov + "M")[i] == ov[i];
        }
      }
    }
    SplitWsJoin(fields, '\t', '\n');
    assert (ov + "M")[..|ov + "M"| - 1] == ov;
    ParseIntToStr(t.overlap);
  }

  /** Decoding the `L` line written for entry `t` on side `s1` of `n1`
      stores `t` on that side again and its reciprocal `(n1, s1, overlap)`
      on the side `t` names. */
  lemma EdgeLineRecreates(h: NodeMap, n1: string, s1: int, t: Triple)
    requires ValidId(n1) && ValidId(t.id) && (s1 == 0 || s1 == 1) && (t.side == 0 || t.side == 1)
    requires n1 in h && t.id in h
    ensures ParseLink(EdgeLine(n1, Orient(s1), t)).Ok?
    ensures var r := AddLink(h, ParseLink(EdgeLine(n1, Orient(s1), t)).value);
      && r.Ok?
      && t in SideList(r.value[n1], s1)
      && Triple(n1, s1, t.overlap) in SideList(r.value[t.id], t.side)
  {
    EdgeLineParses(n1, Orient(s1), t);
    var l := Link(n1, s1 == 0, t.id, t.side != 0, t.overlap);
    assert Triple(t.id, ToSide(l), t.overlap) == t;
    var g1 := Attach(h, n1, s1, t);
    AttachGrows(h, n1, s1, t, n1, s1, t);
    AttachGrows(g1, t.id, t.side, Triple(n1, s1, t.overlap), n1, s1, t);
    AttachGrows(g1, t.id, t.side, Triple(n1, s1, t.overlap), t.id, t.side, Triple(n1, s1, t.overlap));
  }

  /** Reading an `L` line written from a symmetric table back into that
      table changes nothing: both halves are already stored. */
  lemma EdgeLineNoOp(g: NodeMap, n1: string, s1: int, t: Triple)
    requires Symmetric(g) && n1 in g && (s1 == 0 || s1 == 1) && t in SideList(g[n1], s1)
    requires ValidId(n1) && ValidId(t.id)
    ensures ParseLink(EdgeLine(n1, Orient(s1), t)).Ok?
    ensures AddLink(g, ParseLink(EdgeLine(n1, Orient(s1), t)).value) == Ok(g)
  {
    EdgeLineParses(n1, Orient(s1), t);
    var l := Link(n1, s1 == 0, t.id, t.side != 0, t.overlap);
    assert Triple(t.id, ToSide(l), t.overlap) == t;
    AttachPresent(g, n1, s1, t);
    AttachPresent(g, t.id, t.side, Triple(n1, s1, t.overlap));
  }

  /** The node `read_gfa` builds from the `S` line written for `n`. */
  function ReadBack(id: string, n: Node): Node {
    NewNode(id).(
      sequence := n.sequence,
      seqLen := |n.sequence| + (if |n.optional| > 0 then 0 else 1),
      optional := if |n.optional| > 0 then n.optional + "\n" else "")
  }

  /** The `S` line written for a node with a whitespace-free id and
      sequence reads back as that id and sequence with no edges. Without
      tags the sequence field ends in the line's newline, which the length
      counts and `strip()` removes; with tags the newline ends the tags. */
  lemma SegmentLineParses(id: string, n: Node)
    requires ValidId(id) && NoSpace(n.sequence)
    ensures StartsWith(SegmentLine(id, n), "S")
    ensures ParseSegment(SegmentLine(id, n)) == Ok(ReadBack(id, n))
  {
    assert '\t' !in id && '\t' !in n.sequence by {
      assert IsSpace('\t');
    }
    if |n.optional| > 0 {
      TaggedLineParses(id, n);
    } else {
      PlainLineParses(id, n);
    }
  }

  lemma TaggedLineParses(id: string, n: Node)
    requires '\t' !in id && '\t' !in n.sequence && NoSpace(n.sequence) && |n.optional| > 0
    ensures StartsWith(SegmentLine(id, n), "S")
    ensures ParseSegment(SegmentLine(id, n)) == Ok(ReadBack(id, n))
  {
    var sq := n.sequence;
    var line := SegmentLine(id, n);
    assert line == Join(["S", id, sq, n.optional], '\t') + "\n";
    assert line[..1] == "S" by {
      JoinCons("S", [id, sq, n.optional], '\t');
    }
    var f := Split(line, '\t');
    assert |f| > 3 && f[1] == id && f[2] == sq && Join(f[3..], '\t') == n.optional + "\n" && Strip(sq) == sq by {
      TaggedSegmentParses(id, sq, n.optional);
    }
  }

  lemma PlainLineParses(id: string, n: Node)
    requires '\t' !in id && '\t' !in n.sequence && NoSpace(n.sequence) && |n.optional| == 0
    ensures StartsWith(SegmentLine(id, n), "S")
    ensures ParseSegment(SegmentLine(id, n)) == Ok(ReadBack(id, n))
  {
    var sq := n.sequence;
    var line := SegmentLine(id, n);
    assert line == Join(["S", id, sq], '\t') + "\n";
    assert line[..1] == "S" by {
      JoinCons("S", [id, sq], '\t');
    }
    assert Split(line, '\t') == ["S", id, sq + "\n"] && Strip(sq + "\n") == sq by {
      PlainSegmentParses(id, sq);
    }
  }

  lemma TaggedSegmentParses(id: string, sq: string, opt: string)
    requires '\t' !in id && '\t' !in sq && NoSpace(sq)
    ensures var line := Join(["S", id, sq, opt], '\t') + "\n";
      var f := Split(line, '\t');
      && |f| > 3 && f[..3] == ["S", id, sq]
      && Join(f[3..], '\t') == opt + "\n"
      && Strip(sq) == sq
  {
    var o := opt + "\n";
    JoinAppendLast(["S", id, sq], opt, "\n", '\t');
    assert ["S", id, sq] + [opt] == ["S", id, sq, opt];
    SplitJoinLast(["S", id, sq], o, '\t');
    var f := Split(Join(["S", id, sq] + [o], '\t'), '\t');
    assert f[3..] == Split(o, '\t');
    JoinSplit(o, '\t');
    StripTrimmed(sq);
  }

  lemma PlainSegmentParses(id: string, sq: string)
    requires '\t' !in id && '\t' !in sq && NoSpace(sq)
    ensures Split(Join(["S", id, sq], '\t') + "\n", '\t') == ["S", id, sq + "\n"]
    ensures Strip(sq + "\n") == sq
  {
    var last := sq + "\n";
    JoinAppendLast(["S", id], sq, "\n", '\t');
    assert ["S", id] + [sq] == ["S", id, sq];
    assert '\t' !in last;
    SplitJoinLast(["S", id], last, '\t');
    SplitFree(last, '\t');
    StripNewline(sq);
  }

  // ---------------------------------------------------------------------
  // Each written string is one line

  /** The `S` line is one line when the id, the sequence and the tags hold
      no line break. */
  lemma SegmentLineOneLine(id: string, n: Node)
    requires ValidId(id) && NoSpace(n.sequence) && '\n' !in n.optional && '\r' !in n.optional
    ensures OneLine(SegmentLine(id, n))
  {
    NoSpaceBreaks(id);
    NoSpaceBreaks(n.sequence);
    var parts := if |n.optional| > 0 then ["S", id, n.sequence, n.optional] else ["S", id, n.sequence];
    var body := Join(parts, '\t');
    JoinFree(parts, '\t', '\n');
    JoinFree(parts, '\t', '\r');
    assert SegmentLine(id, n) == body + "\n";
    assert (body + "\n")[..|body|] == body;
  }

  /** An `L` line between valid ids is one line. */
  lemma EdgeLineOneLine(n1: string, o1: string, t: Triple)
    requires ValidId(n1) && ValidId(t.id) && (o1 == "-" || o1 == "+")
    ensures OneLine(EdgeLine(n1, o1, t))
  {
    NoSpaceBreaks(n1);
    NoSpaceBreaks(t.id);
    IntToStrNoSpace(t.overlap);
    NoSpaceBreaks(IntToStr(t.overlap));
    var head := ["L", n1, o1, t.id, if t.side == 0 then "+" else "-"];
    var last := IntToStr(t.overlap) + "M";
    JoinAppendLast(head, last, "\n", '\t');
    assert last + "\n" == IntToStr(t.overlap) + "M\n";
    assert head + [last + "\n"] == ["L", n1, o1, t.id, if t.side == 0 then "+" else "-", IntToStr(t.overlap) + "M\n"];
    var body := Join(head + [last], '\t');
    JoinFree(head + [last], '\t', '\n');
    JoinFree(head + [last], '\t', '\r');
    assert EdgeLine(n1, o1, t) == body + "\n";
    assert (body + "\n")[..|body|] == body;
  }
}
