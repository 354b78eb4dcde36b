/**
 * The command-line helpers of GFASubgraph/main_helpers.py: reading the
 * node paths of GAF alignment records, collecting the neighbourhoods of
 * the alignment nodes, and summing sequence lengths.
 */
module Alignments {
  import opened Wrappers
  import opened Text
  import opened Nodes
  import opened Adjacency
  import Bfs

  // ---------------------------------------------------------------------
  // GAF path fields

  /** An orientation marker of a GAF path step. */
  predicate IsMarker(c: char) {
    c == '>' || c == '<'
  }

  /** An id as a path step can carry it. */
  predicate CleanId(s: string) {
    '>' !in s && '<' !in s && ',' !in s
  }

  /** `.replace(">", ",")` then `.replace("<", ",")`. */
  function Commas(s: string): (r: string)
    ensures |r| == |s|
    ensures '>' !in r && '<' !in r
  {
    Replace(Replace(s, '>', ','), '<', ',')
  }

  /** The node ids of a path field: the leading marker dropped, every other
      marker turned into a comma, then split on commas. */
  function PathIds(path: string): (ids: seq<string>)
    requires path != []
    ensures |ids| >= 1
  {
    Split(Commas(path[1..]), ',')
  }

  /** No id the path yields carries a marker or a comma. */
  lemma PathIdsClean(path: string)
    requires path != []
    ensures forall i :: 0 <= i < |PathIds(path)| ==> CleanId(PathIds(path)[i])
  {
    var t := Commas(path[1..]);
    SplitPiecesFree(t, ',');
    SplitPiecesFrom(t, ',');
  }

  lemma CommasAppend(a: string, b: string)
    ensures Commas(a + b) == Commas(a) + Commas(b)
  {
    assert forall i :: 0 <= i < |a| ==> (a + b)[i] == a[i];
    assert forall i :: |a| <= i < |a + b| ==> (a + b)[i] == b[i - |a|];
  }

  lemma CommasOfClean(s: string)
    requires CleanId(s)
    ensures Commas(s) == s
  {
  }

  lemma {:induction false} CountCommas(s: string)
    ensures Count(Commas(s), ',') == Count(s, '>') + Count(s, '<') + Count(s, ',')
    decreases |s|
  {
    if s != [] {
      CountCommas(s[1..]);
      assert [s[0]] + s[1..] == s;
      CommasAppend([s[0]], s[1..]);
      CountAppend(Commas([s[0]]), Commas(s[1..]), ',');
    }
  }

  /** A path starting with a marker and without commas yields one id per
      marker. */
  lemma PathIdsCount(path: string)
    requires path != [] && IsMarker(path[0]) && ',' !in path
    ensures |PathIds(path)| == Count(path, '>') + Count(path, '<')
  {
    var t := path[1..];
    assert ',' !in t by {
      forall i | 0 <= i < |t| ensures t[i] != ',' {
        assert t[i] == path[i + 1];
      }
    }
    CountNone(t, ',');
    CountCommas(t);
    SplitLength(Commas(t), ',');
  }

  lemma {:induction false} CountNone(s: string, c: char)
    requires c !in s
    ensures Count(s, c) == 0
    decreases |s|
  {
    if s != [] {
      assert c !in s[1..] by {
        forall i | 0 <= i < |s| - 1 ensures s[1..][i] != c {
          assert s[1..][i] == s[i + 1];
        }
      }
      CountNone(s[1..], c);
    }
  }

  /** One step of a path: an orientation marker and a node id. */
  datatype Step = Step(marker: char, id: string)

  /** The path field of a walk, as GAF writes it: `>id1<id2>id3…`. */
  function Render(steps: seq<Step>): string
    decreases |steps|
  {
    if steps == [] then "" else [steps[0].marker] + steps[0].id + Render(steps[1..])
  }

  function StepIds(steps: seq<Step>): (ids: seq<string>)
    ensures |ids| == |steps| && forall i :: 0 <= i < |steps| ==> ids[i] == steps[i].id
  {
    seq(|steps|, i requires 0 <= i < |steps| => steps[i].id)
  }

  predicate WellFormedSteps(steps: seq<Step>) {
    forall i :: 0 <= i < |steps| ==> IsMarker(steps[i].marker) && CleanId(steps[i].id)
  }

  lemma {:induction false} CommasRender(steps: seq<Step>)
    requires WellFormedSteps(steps)
    ensures Commas(Render(steps)) == if steps == [] then "" else "," + Join(StepIds(steps), ',')
    decreases |steps|
  {
    if steps != [] {
      var rest := steps[1..];
      var x := steps[0];
      assert WellFormedSteps(rest) by {
        forall i | 0 <= i < |rest| ensures IsMarker(rest[i].marker) && CleanId(rest[i].id) {
          assert rest[i] == steps[i + 1];
        }
      }
      var ids := StepIds(steps);
      assert ids == [x.id] + StepIds(rest);
      CommasRenderStep(steps);
      CommasRender(rest);
      if rest != [] {
        JoinCons(x.id, StepIds(rest), ',');
        Regroup(x.id, Join(StepIds(rest), ','));
      } else {
        assert "," + x.id + "" == "," + x.id;
      }
    }
  }

  lemma Regroup(id: string, j: string)
    ensures "," + id + ("," + j) == "," + (id + [','] + j)
  {
  }

  /** The first step's marker becomes a comma and its id stays. */
  lemma CommasRenderStep(steps: seq<Step>)
    requires steps != [] && IsMarker(steps[0].marker) && CleanId(steps[0].id)
    ensures Commas(Render(steps)) == "," + steps[0].id + Commas(Render(steps[1..]))
  {
    var x := steps[0];
    var r := Render(steps[1..]);
    assert Render(steps) == ([x.marker] + x.id) + r;
    CommasAppend([x.marker] + x.id, r);
    CommasAppend([x.marker], x.id);
    CommasOfClean(x.id);
    assert Commas([x.marker]) == ",";
  }

  /** Reading the path field of a walk gives the walk's ids in order: the
      ids are exactly the substrings between the markers. */
  lemma PathIdsRender(steps: seq<Step>)
    requires steps != [] && WellFormedSteps(steps)
    ensures PathIds(Render(steps)) == StepIds(steps)
  {
    CommasRenderTail(steps);
    SplitJoin(StepIds(steps), ',');
  }

  /** Past its first marker, a walk's path field reads as its ids joined
      by commas once every marker is a comma. */
  lemma CommasRenderTail(steps: seq<Step>)
    requires steps != [] && WellFormedSteps(steps)
    ensures Commas(Render(steps)[1..]) == Join(StepIds(steps), ',')
  {
    var r := Render(steps);
    assert r == [r[0]] + r[1..];
    CommasAppend([r[0]], r[1..]);
    CommasRender(steps);
    assert Commas(r)[1..] == Commas(r[1..]);
  }

  // ---------------------------------------------------------------------
  // read_gaf

  /** The exception a GAF line can raise: a missing path field, or an
      empty one. */
  datatype GafError = IndexError

  /** One line of `read_gaf`: `strip()`, split on tabs; the name is field
      1 and the path field 6. A path that starts with a marker yields the
      record, any other path none. */
  function ParseGafLine(line: string): (r: Result<Option<(string, seq<string>)>, GafError>)
    ensures var f := Split(Strip(line), '\t');
      && (r.Err? <==> |f| < 6 || f[5] == [])
      && (r.Ok? && r.value.Some? <==> |f| >= 6 && f[5] != [] && IsMarker(f[5][0]))
  {
    var l := Split(Strip(line), '\t');
    if |l| < 6 then Err(IndexError)
    else
      var name := l[0];
      var path := l[5];
      if path == [] then Err(IndexError)
      else if IsMarker(path[0]) then Ok(Some((name, PathIds(path))))
      else Ok(None)
  }

  /** The `alignments` dictionary after the given lines. */
  function ReadAlignments(lines: seq<string>): Result<map<string, seq<string>>, GafError>
    decreases |lines|
  {
    if lines == [] then Ok(map[])
    else
      match ReadAlignments(lines[..|lines| - 1])
      case Err(e) => Err(e)
      case Ok(m) =>
        match ParseGafLine(lines[|lines| - 1])
        case Err(e) => Err(e)
        case Ok(None) => Ok(m)
        case Ok(Some((name, ids))) => Ok(m[name := ids])
  }

  lemma {:induction false} ReadErrSticks(lines: seq<string>, k: nat)
    requires k <= |lines| && ReadAlignments(lines[..k]).Err?
    ensures ReadAlignments(lines) == ReadAlignments(lines[..k])
    decreases |lines| - k
  {
    if k < |lines| {
      assert lines[..k + 1][..k] == lines[..k];
      ReadErrSticks(lines, k + 1);
    } else {
      assert lines[..k] == lines;
    }
  }

  /** `read_gaf` with its loop over the lines. */
  method ReadGaf(lines: seq<string>) returns (r: Result<map<string, seq<string>>, GafError>)
    ensures r == ReadAlignments(lines)
  {
    var alignments: map<string, seq<string>> := map[];
    for i := 0 to |lines|
      invariant ReadAlignments(lines[..i]) == Ok(alignments)
    {
      assert lines[..i + 1][..i] == lines[..i];
      var l := Split(Strip(lines[i]), '\t');
      if |l| < 6 || l[5] == [] {
        ReadErrSticks(lines, i + 1);
        return Err(IndexError);
      }
      var name := l[0];
      var path := l[5];
      if IsMarker(path[0]) {
        alignments := alignments[name := PathIds(path)];
      }
    }
    assert lines[..|lines|] == lines;
    r := Ok(alignments);
  }

  /** A record whose path does not start with a marker is not added. */
  lemma ReadSkips(lines: seq<string>, line: string)
    requires ParseGafLine(line) == Ok(None)
    ensures ReadAlignments(lines + [line]) == ReadAlignments(lines)
  {
    assert (lines + [line])[..|lines|] == lines;
  }

  /** A later record with the same name replaces the earlier one. */
  lemma ReadLastWins(lines: seq<string>, line: string, name: string, ids: seq<string>)
    requires ParseGafLine(line) == Ok(Some((name, ids))) && ReadAlignments(lines).Ok?
    ensures ReadAlignments(lines + [line]) == Ok(ReadAlignments(lines).value[name := ids])
  {
    assert (lines + [line])[..|lines|] == lines;
  }

  /** Every stored id list comes from a marker-led path, so carries no
      marker and no comma. */
  lemma {:induction false} ReadAlignmentsClean(lines: seq<string>)
    requires ReadAlignments(lines).Ok?
    ensures var m := ReadAlignments(lines).value;
      forall name, i :: name in m && 0 <= i < |m[name]| ==> CleanId(m[name][i])
    decreases |lines|
  {
    if lines != [] {
      ReadAlignmentsClean(lines[..|lines| - 1]);
      var p := ParseGafLine(lines[|lines| - 1]);
      if p.value.Some? {
        var l := Split(Strip(lines[|lines| - 1]), '\t');
        PathIdsClean(l[5]);
      }
    }
  }

  // ---------------------------------------------------------------------
  // seq_size

  datatype KeyError = KeyError(key: string)

  /** `seq_size(graph, nodes)`: the sum of `seq_len` over `nodes`, or the
      `KeyError` of the first id that is not in the table. */
  function SeqSizeSpec(g: NodeMap, nodes: seq<string>): (r: Result<nat, KeyError>)
    ensures r.Ok? <==> forall n :: n in nodes ==> n in g
    ensures r.Err? ==> exists i :: (0 <= i < |nodes| && nodes[i] == r.error.key && r.error.key !in g
      && forall j :: 0 <= j < i ==> nodes[j] in g)
    decreases |nodes|
  {
    if nodes == [] then Ok(0)
    else
      var pre := nodes[..|nodes| - 1];
      var n := nodes[|nodes| - 1];
      assert forall x :: x in nodes <==> x in pre || x == n;
      match SeqSizeSpec(g, pre)
      case Err(e) =>
        assert forall j :: 0 <= j < |pre| ==> pre[j] == nodes[j];
        Err(e)
      case Ok(c) =>
        if n !in g then
          assert forall j :: 0 <= j < |pre| ==> nodes[j] in g by {
            forall j | 0 <= j < |pre| ensures nodes[j] in g {
              assert nodes[j] == pre[j];
            }
          }
          Err(KeyError(n))
        else Ok(c + g[n].seqLen)
  }

  /** `seq_size` with its counter loop. */
  method SeqSize(g: NodeMap, nodes: seq<string>) returns (r: Result<nat, KeyError>)
    ensures r == SeqSizeSpec(g, nodes)
  {
    var counter: nat := 0;
    for i := 0 to |nodes|
      invariant SeqSizeSpec(g, nodes[..i]) == Ok(counter)
    {
      assert nodes[..i + 1][..i] == nodes[..i];
      var n := nodes[i];
      if n !in g {
        SeqSizeErrSticks(g, nodes, i + 1);
        return Err(KeyError(n));
      }
      counter := counter + g[n].seqLen;
    }
    assert nodes[..|nodes|] == nodes;
    r := Ok(counter);
  }

  lemma {:induction false} SeqSizeErrSticks(g: NodeMap, nodes: seq<string>, k: nat)
    requires k <= |nodes| && SeqSizeSpec(g, nodes[..k]).Err?
    ensures SeqSizeSpec(g, nodes) == SeqSizeSpec(g, nodes[..k])
    decreases |nodes| - k
  {
    if k < |nodes| {
      assert nodes[..k + 1][..k] == nodes[..k];
      SeqSizeErrSticks(g, nodes, k + 1);
    } else {
      assert nodes[..k] == nodes;
    }
  }

  /** The size of a concatenation is the sum of the sizes. */
  lemma {:induction false} SeqSizeAppend(g: NodeMap, a: seq<string>, b: seq<string>)
    requires forall n :: n in a + b ==> n in g
    ensures SeqSizeSpec(g, a + b).Ok? && SeqSizeSpec(g, a).Ok? && SeqSizeSpec(g, b).Ok?
    ensures SeqSizeSpec(g, a + b).value == SeqSizeSpec(g, a).value + SeqSizeSpec(g, b).value
    decreases |b|
  {
    assert forall n :: n in a ==> n in a + b;
    assert forall n :: n in b ==> n in a + b;
    if b == [] {
      assert a + b == a;
    } else {
      var pre := b[..|b| - 1];
      assert (a + b)[..|a + b| - 1] == a + pre;
      assert forall n :: n in a + pre ==> n in a + b;
      SeqSizeAppend(g, a, pre);
    }
  }

  /** The order in which the ids are visited does not change the size. */
  lemma {:induction false} SeqSizeReorder(g: NodeMap, a: seq<string>, b: seq<string>)
    requires multiset(a) == multiset(b) && forall n :: n in a ==> n in g
    ensures SeqSizeSpec(g, a) == SeqSizeSpec(g, b)
    decreases |a|
  {
    if a != [] {
      var pre := a[..|a| - 1];
      var x := a[|a| - 1];
      assert x in multiset(b);
      var i :| 0 <= i < |b| && b[i] == x;
      var b1, b2 := b[..i], b[i + 1..];
      assert multiset(pre) == multiset(b1 + b2) && forall n :: n in pre ==> n in g by {
        DropOne(a, b, i);
        assert forall n :: n in pre ==> n in a;
      }
      assert SeqSizeSpec(g, pre) == SeqSizeSpec(g, b1 + b2) by {
        SeqSizeReorder(g, pre, b1 + b2);
      }
      assert SeqSizeSpec(g, a).Ok? && SeqSizeSpec(g, a).value == SeqSizeSpec(g, pre).value + g[x].seqLen by {
        SeqSizeLast(g, a);
      }
      assert SeqSizeSpec(g, b).Ok? && SeqSizeSpec(g, b).value == SeqSizeSpec(g, b1 + b2).value + g[x].seqLen by {
        forall n | n in b1 + b2 ensures n in g {
          assert n in multiset(pre);
        }
        assert b == b1 + [x] + b2;
        SeqSizeMiddle(g, b1, x, b2);
      }
    }
  }

  /** The last id adds its length. */
  lemma SeqSizeLast(g: NodeMap, a: seq<string>)
    requires a != [] && forall n :: n in a ==> n in g
    ensures SeqSizeSpec(g, a).Ok? && SeqSizeSpec(g, a[..|a| - 1]).Ok?
    ensures SeqSizeSpec(g, a).value == SeqSizeSpec(g, a[..|a| - 1]).value + g[a[|a| - 1]].seqLen
  {
    assert forall n :: n in a[..|a| - 1] ==> n in a;
  }

  /** Taking the last element of `a` and one equal element of `b` out of
      two permutations leaves permutations. */
  lemma DropOne(a: seq<string>, b: seq<string>, i: nat)
    requires a != [] && multiset(a) == multiset(b) && i < |b| && b[i] == a[|a| - 1]
    ensures multiset(a[..|a| - 1]) == multiset(b[..i] + b[i + 1..])
  {
    var x := a[|a| - 1];
    assert a == a[..|a| - 1] + [x];
    assert b == b[..i] + [x] + b[i + 1..];
    var m := multiset(b[..i] + b[i + 1..]);
    assert multiset(b) == m + multiset{x};
    assert multiset(a) == multiset(a[..|a| - 1]) + multiset{x};
    forall y ensures multiset(a[..|a| - 1])[y] == m[y] {
      assert multiset(a)[y] == multiset(a[..|a| - 1])[y] + multiset{x}[y];
      assert multiset(b)[y] == m[y] + multiset{x}[y];
    }
  }

  /** An id in the middle adds its length. */
  lemma SeqSizeMiddle(g: NodeMap, b1: seq<string>, x: string, b2: seq<string>)
    requires x in g && forall n :: n in b1 + b2 ==> n in g
    ensures SeqSizeSpec(g, b1 + [x] + b2).Ok? && SeqSizeSpec(g, b1 + b2).Ok?
    ensures SeqSizeSpec(g, b1 + [x] + b2).value == SeqSizeSpec(g, b1 + b2).value + g[x].seqLen
  {
    assert forall n :: n in b1 + [x] + b2 ==> n in b1 + b2 || n == x;
    assert forall n :: n in b1 ==> n in b1 + b2;
    assert forall n :: n in b2 ==> n in b1 + b2;
    SeqSizeAppend(g, b1, b2);
    SeqSizeAppend(g, b1 + [x], b2);
    SeqSizeAppend(g, b1, [x]);
    assert [x][..0] == [];
  }

  // ---------------------------------------------------------------------
  // extract_alignments

  /** `final_nodes` after `extract_alignments`, and the `KeyError` of the
      breadth-first search that stopped it, if one did. */
  datatype Extracted = Extracted(nodes: set<string>, failure: Option<Bfs.BfsError>)

  /** What one alignment node present in the table adds: itself when
      `n_size == 1`, its neighbourhood otherwise. */
  function Contribution(g: NodeMap, n: string, nSize: int): Bfs.BfsResult {
    if nSize == 1 then Bfs.Ok({n}) else Bfs.BfsSpec(g, n, nSize)
  }

  /** `extract_alignments(alignment_nodes, graph, n_size, final_nodes)`:
      absent nodes are skipped, the others add their contribution; the
      first failing search ends the call with the additions so far. */
  function Extract(g: NodeMap, order: seq<string>, nSize: int, final: set<string>): (r: Extracted)
    ensures final <= r.nodes
    decreases |order|
  {
    if order == [] then Extracted(final, None)
    else
      var r0 := Extract(g, order[..|order| - 1], nSize, final);
      var n := order[|order| - 1];
      if r0.failure.Some? || n !in g then r0
      else
        var c := Contribution(g, n, nSize);
        if c.Err? then Extracted(r0.nodes, Some(c.error)) else Extracted(r0.nodes + c.value, None)
  }

  /** Once a search has failed, one more alignment node changes nothing. */
  lemma ExtractFailStep(g: NodeMap, order: seq<string>, nSize: int, final: set<string>)
    requires order != [] && Extract(g, order[..|order| - 1], nSize, final).failure.Some?
    ensures Extract(g, order, nSize, final) == Extract(g, order[..|order| - 1], nSize, final)
  {
  }

  lemma {:induction false} ExtractFailSticks(g: NodeMap, order: seq<string>, nSize: int, final: set<string>, k: nat)
    requires k <= |order| && Extract(g, order[..k], nSize, final).failure.Some?
    ensures Extract(g, order, nSize, final) == Extract(g, order[..k], nSize, final)
    decreases |order| - k
  {
    if k < |order| {
      assert order[..k + 1][..k] == order[..k];
      ExtractFailStep(g, order[..k + 1], nSize, final);
      ExtractFailSticks(g, order, nSize, final, k + 1);
    } else {
      assert order[..k] == order;
    }
  }

  /** `extract_alignments` with its two loops; `final` is `final_nodes`. */
  method ExtractAlignments(g: NodeMap, alignmentNodes: seq<string>, nSize: int, finalNodes: set<string>)
      returns (r: Extracted)
    ensures r == Extract(g, alignmentNodes, nSize, finalNodes)
  {
    var final := finalNodes;
    for i := 0 to |alignmentNodes|
      invariant Extract(g, alignmentNodes[..i], nSize, finalNodes) == Extracted(final, None)
    {
      assert alignmentNodes[..i + 1][..i] == alignmentNodes[..i];
      var n := alignmentNodes[i];
      if n in g {
        var setOfNodes: set<string>;
        if nSize == 1 {
          setOfNodes := {n};
        } else {
          var b := Bfs.Bfs(g, n, nSize);
          if b.Err? {
            ExtractFailSticks(g, alignmentNodes, nSize, finalNodes, i + 1);
            return Extracted(final, Some(b.error));
          }
          setOfNodes := b.value;
        }
        ghost var before := final;
        var pending := setOfNodes;
        while pending != {}
          invariant pending <= setOfNodes
          invariant final == before + (setOfNodes - pending)
          decreases pending
        {
          var nId :| nId in pending;
          final := final + {nId};
          pending := pending - {nId};
        }
      }
    }
    assert alignmentNodes[..|alignmentNodes|] == alignmentNodes;
    r := Extracted(final, None);
  }

  /** The incoming `final_nodes` only ever gets united with what the
      alignment nodes contribute. */
  lemma {:induction false} ExtractShift(g: NodeMap, order: seq<string>, nSize: int, final: set<string>)
    ensures var e := Extract(g, order, nSize, {});
      Extract(g, order, nSize, final) == Extracted(final + e.nodes, e.failure)
    decreases |order|
  {
    if order != [] {
      ExtractShift(g, order[..|order| - 1], nSize, final);
    }
  }

  /** Running it again on its own result adds nothing. */
  lemma ExtractIdempotent(g: NodeMap, order: seq<string>, nSize: int, final: set<string>)
    requires Extract(g, order, nSize, final).failure.None?
    ensures Extract(g, order, nSize, Extract(g, order, nSize, final).nodes) == Extract(g, order, nSize, final)
  {
    var e := Extract(g, order, nSize, {});
    ExtractShift(g, order, nSize, final);
    ExtractShift(g, order, nSize, final + e.nodes);
    assert final + e.nodes + e.nodes == final + e.nodes;
  }

  /** Alignment nodes absent from the table contribute nothing. */
  lemma {:induction false} ExtractAbsent(g: NodeMap, order: seq<string>, nSize: int, final: set<string>)
    requires forall n :: n in order ==> n !in g
    ensures Extract(g, order, nSize, final) == Extracted(final, None)
    decreases |order|
  {
    if order != [] {
      assert forall n :: n in order[..|order| - 1] ==> n in order;
      ExtractAbsent(g, order[..|order| - 1], nSize, final);
    }
  }

  /** With `n_size == 1` the present alignment nodes are added, and
      nothing else. */
  lemma {:induction false} ExtractPathOnly(g: NodeMap, order: seq<string>, final: set<string>)
    ensures Extract(g, order, 1, final) == Extracted(final + (set n | n in order && n in g), None)
    decreases |order|
  {
    if order != [] {
      var pre := order[..|order| - 1];
      var n := order[|order| - 1];
      ExtractPathOnly(g, pre, final);
      assert forall x :: x in order <==> x in pre || x == n;
      if n in g {
        assert (set x | x in order && x in g) == (set x | x in pre && x in g) + {n};
      } else {
        assert (set x | x in order && x in g) == (set x | x in pre && x in g);
      }
    }
  }

  /** Without a failure, every present alignment node's contribution is
      in the result. */
  lemma {:induction false} ExtractComplete(g: NodeMap, order: seq<string>, nSize: int, final: set<string>, n: string)
    requires Extract(g, order, nSize, final).failure.None?
    requires n in order && n in g
    ensures Contribution(g, n, nSize).Ok? && Contribution(g, n, nSize).value <= Extract(g, order, nSize, final).nodes
    decreases |order|
  {
    var pre := order[..|order| - 1];
    var r0 := Extract(g, pre, nSize, final);
    var last := order[|order| - 1];
    if n != last {
      assert n in pre by {
        var i :| 0 <= i < |order| && order[i] == n;
        assert pre[i] == n;
      }
      ExtractComplete(g, pre, nSize, final, n);
    }
  }

  /** Everything added is a table node reachable from a present
      alignment node. */
  lemma {:induction false} ExtractSound(g: NodeMap, order: seq<string>, nSize: int, final: set<string>, x: string)
    requires x in Extract(g, order, nSize, final).nodes && x !in final
    ensures x in g && exists n :: n in order && n in g && Bfs.Reachable(g, n, x)
    decreases |order|
  {
    var pre := order[..|order| - 1];
    var r0 := Extract(g, pre, nSize, final);
    var n := order[|order| - 1];
    assert forall y :: y in pre ==> y in order;
    if x in r0.nodes {
      ExtractSound(g, pre, nSize, final, x);
    } else {
      if nSize == 1 {
        Bfs.ReachSelf(g, n);
      } else {
        Bfs.BfsSound(g, n, nSize);
      }
    }
  }
}
