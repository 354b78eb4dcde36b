# GFASubgraph core in Dafny

GFASubgraph reads an assembly graph in GFA 1 format and extracts neighbourhoods from it. Segment (`S`) lines become nodes, and link (`L`) lines become edges between node sides. It can also collect the nodes that GAF alignment paths run through, together with their neighbourhoods, and write the chosen node subset back out as GFA. This project models the core of that program:

- **Node record** (`nodes.dfy`, module `Nodes`): a bidirected node with two sides. Side 0 is `start` and side 1 is `end`. Each side holds a list of `(neighbour id, neighbour side, overlap)` entries. The three queries `neighbors`, `in_direction` and `children` are modelled on it.
- **Node table as a value** (`adjacency.dfy`, module `Adjacency`):
  - the invariants the decoder establishes: edge symmetry, duplicate-free sides, and ids equal to keys;
  - node removal exactly as `remove_node` performs it: one `list.remove` per edge end, over snapshots, then `del`;
  - the proof that on a symmetric, duplicate-free table this is the same as deleting the node and every entry that names it.
- **Graph store** (`graph.dfy`, module `Graphs`): class `Graph`, whose `nodes` map its methods update in place. It covers `__init__` without a file, `__len__`, `reset_visited`, `remove_node` and `remove_lonely_nodes`.
- **Bounded breadth-first search** (`bfs.py`, modelled in `bfs.dfy`, module `Bfs`):
  - `bfs` and `main_while_loop` as methods, each equal to a recursive specification;
  - what the specification guarantees: the start is included, every node reached is reachable, the size bound holds, there is a shortcut for a lonely start, and with a large enough bound the result is the whole connected component;
  - the queue never holds an id twice, and the loop ends within `len(graph)` rounds.
- **GFA decoding** (`gfa_read.dfy`, module `GfaRead`):
  - the record logic of `read_gfa` on the lines of a file: S-line fields, the orientation table of L lines, and the duplicate-free insertion of both halves of each edge;
  - its two loops as a method.
- **GFA encoding** (`gfa_write.dfy`, module `GfaWrite`):
  - the lines `write_gfa` produces for a subset of ids, with its loops as methods;
  - line-level round trips into the decoder.
- **Round trip** (`roundtrip.dfy`, module `GfaRoundTrip`): every string written is one line, so reading the written file back in text mode yields exactly those strings, and decoding them gives the subgraph the subset induces. When every node is written, it gives back every node's adjacency as a set of entries per side, and as a permutation of each side list when the table holds no repeated entry (a repeated entry is read back once).
- **Alignment helpers** (`alignments.dfy`, module `Alignments`):
  - the path-field normalisation and record filter of `read_gaf`;
  - `seq_size`;
  - `extract_alignments`.
- Support modules:
  - `text.dfy` (module `Text`) models the Python string built-ins the code relies on: `split`, `split()`, `join`, `strip`, `replace`, `str(int)`, `int(str)` and `sorted` on strings. It also models a text file: the concatenation of the strings written to it, and the lines a text-mode read yields.
  - `wrappers.dfy` supplies `Result` and `Option`.

Python exceptions raised by pure record logic are modelled as `Err` values of a `Result`. The graph argument of `bfs` and `extract_alignments` is the id→Node map: `Graph` defines neither `__getitem__` nor `__contains__`, so only the map supports the indexing and `in` tests those functions perform. `seq_size` takes a `Graph` and reads `graph.nodes[n].seq_len` (main_helpers.py line 18). The model passes it `graph.nodes`, which gives the same lookups.

Points where the code behaves differently from what a reader of GFA might expect:

- A link line that names an unknown segment stops the read: `nodes[k]` raises `KeyError`, and the model returns `Err(KeyError(id))`. Nothing skips such a line.
- `neighbors()` is the sorted list of all entry ids, with no deduplication: an id appears once per entry.
- A node's `seq_len` is the length of the raw third tab field, measured before `strip()`. When the S line has no tags, that field still ends in the line's newline, which is counted. When the line has tags, the newline stays at the end of `optional`.

## Model

| member | source | states |
|---|---|---|
| Nodes.NewNode | GFASubgraph/Node.py:7-14 | A fresh node has the given id, an empty sequence, length 0, no `start` or `end` entries, `visited` false and empty tags, and so no neighbours |
| Nodes.Node.Neighbors | GFASubgraph/Node.py:33-39 | The result is sorted and is a permutation of the ids of `start` followed by those of `end`, so its length is `|start| + |end|` and duplicates are kept |
| Nodes.NeighborsEmpty | GFASubgraph/Node.py:38 | `neighbors()` is empty exactly when both sides are empty |
| Nodes.NeighborsMember | GFASubgraph/Node.py:38-39 | An id is among the neighbours exactly when some entry on `start` or on `end` names it |
| Nodes.NeighborsOrderFree | GFASubgraph/Node.py:38-39 | Nodes whose sides hold the same ids (as multisets) have identical `neighbors()`, so the order of entries cannot change it and the traversal order is deterministic |
| Nodes.Node.InDirection | GFASubgraph/Node.py:41-53 | With direction 0 it holds iff some `start` entry has that id; with any other direction, iff some `end` entry has it |
| Nodes.Node.Children | GFASubgraph/Node.py:55-65 | Direction 0 gives the ids of `start` in list order and direction 1 those of `end`; any other direction is the error naming the node, and only that |
| Nodes.QueriesAgree | GFASubgraph/Node.py:38-63 | `in_direction(m, d)` is membership in `children(d)` for d in {0, 1}, and `neighbors()` is `children(0) + children(1)` up to order |
| Graphs.Graph.constructor | GFASubgraph/Graph.py:16-24 | A graph made without a file has an empty node table |
| Graphs.Graph.Len | GFASubgraph/Graph.py:33-38 | `len(graph)` is the number of table entries |
| Graphs.Graph.ResetVisited | GFASubgraph/Graph.py:48-54 | The new table is `Unvisited` of the old one: the same keys with every `visited` flag false |
| Graphs.UnvisitedKeepsRest | GFASubgraph/Graph.py:53-54 | Clearing the flags leaves every node's id, sequence, length, tags and both sides unchanged |
| Graphs.Graph.UnlinkAllLoop | GFASubgraph/Graph.py:60-74 | One loop of `remove_node`: for each snapshot entry, the reciprocal `(n, side, overlap)` leaves the neighbour's `end` if the entry's side is 1, else its `start`; the new table is the fold `UnlinkAll` |
| Graphs.Graph.RemoveNode | GFASubgraph/Graph.py:56-76 | The new table is what the two snapshot loops and the `del` compute; if the old table was symmetric and duplicate-free, it is exactly `Purge`: the node is gone and so is every entry naming it, and nothing else changes |
| Adjacency.RemovedNodeIsPurge | GFASubgraph/Graph.py:56-76 | On a symmetric, duplicate-free table, `remove_node(n)` raises nothing and removes `n` and every entry naming it, keeping all other entries in order |
| Adjacency.UnlinkAllStep | GFASubgraph/Graph.py:61-66 | When a loop of `remove_node` succeeds as a whole, each `list.remove` finds its reciprocal on the table the earlier calls left |
| Adjacency.RemoveFirst | GFASubgraph/Graph.py:64 | `list.remove(x)` takes exactly one occurrence of `x` out of the list |
| Adjacency.FirstIndex | GFASubgraph/Graph.py:64 | The position `list.remove(x)` searches for: it holds `x`, and no earlier position does |
| Adjacency.RemoveFirstOrder | GFASubgraph/Graph.py:64 | `list.remove(x)` cuts out the first occurrence of `x` and keeps every other entry in its order |
| Adjacency.Drop | GFASubgraph/Graph.py:56-76 | An entry remains exactly when it was there and does not name the removed node; a duplicate-free list stays duplicate-free |
| Graphs.RemovedNodeLen | GFASubgraph/Graph.py:76 | A successful `remove_node` shortens the table by exactly one |
| Adjacency.PurgeForgets | GFASubgraph/Graph.py:56-76 | After removal the node is absent and no remaining entry names it |
| Adjacency.PurgeKeepsInvariants | GFASubgraph/Graph.py:56-76 | Removal keeps edge symmetry and duplicate-free sides |
| Adjacency.PurgeUntouched | GFASubgraph/Graph.py:60-74 | A node with no edge to the removed one keeps its record unchanged |
| Graphs.Graph.RemoveLonelyNodes | GFASubgraph/Graph.py:78-86 | The new table is `WithoutLonely` of the old one: exactly the nodes with an empty `neighbors()` are gone; all others stay unchanged |
| Adjacency.RemovedLonely | GFASubgraph/Graph.py:83-86 | Removing a node without neighbours succeeds and is just the `del` |
| Adjacency.WithoutLonelySymmetric | GFASubgraph/Graph.py:78-86 | Dropping the lonely nodes of a symmetric table keeps it symmetric |
| Adjacency.SymmetricClosed | GFASubgraph/Graph.py:60-74 | On a symmetric table every entry names a table node, so the lookups of `remove_node` find their targets |
| Bfs.EffectiveSize | GFASubgraph/bfs.py:40-41 | A bound above `len(graph)` becomes `len(graph) - 1`; any other bound is kept |
| Bfs.Enqueue | GFASubgraph/bfs.py:19-21 | The old queue is kept as a prefix, every neighbour ends up visited or queued, only unvisited neighbours are appended, and a duplicate-free queue stays duplicate-free |
| Bfs.EnqueueLoop | GFASubgraph/bfs.py:19-21 | The inner `for` loop yields `Enqueue` of the queue and neighbours |
| Bfs.MainWhileLoop | GFASubgraph/bfs.py:4-23 | The method's result is the loop specification `Loop` from `{start}` and the given (or, if empty, the singleton) queue; a popped id outside the table is the `KeyError` |
| Bfs.Bfs | GFASubgraph/bfs.py:26-52 | The method's result is `BfsSpec`: the clamp, then the error for a missing start, `{start}` for a start without neighbours, otherwise the loop |
| Bfs.LoopRound | GFASubgraph/bfs.py:9-21 | `Loop` unfolded once, as a proof step of `MainWhileLoop`: one round pops the front, adds it to the neighbourhood and to `visited`, and enqueues its new neighbours |
| Bfs.BfsMissing | GFASubgraph/bfs.py:45 | A start outside the table raises `KeyError` for it |
| Bfs.BfsLonely | GFASubgraph/bfs.py:45-48 | A start without neighbours gives exactly `{start}` for every bound |
| Bfs.BfsSound | GFASubgraph/bfs.py:5-21 | The result holds the start and only table nodes reachable from it, and has at most `max(1, size + 1)` nodes, for both the clamped and the given bound |
| Bfs.BfsNoError | GFASubgraph/bfs.py:17-45 | When every neighbour id is a table key, a start in the table raises nothing |
| Bfs.BfsComponent | GFASubgraph/bfs.py:9-21 | With a clamped bound of at least the component size minus one, the result is exactly the start's connected component |
| Bfs.BfsWholeComponent | GFASubgraph/bfs.py:40-41 | A bound of at least `len(graph) - 1` yields the whole connected component |
| Bfs.InvStep | GFASubgraph/bfs.py:9-21 | A round keeps the loop invariant: the neighbourhood is `visited` and holds the start, everything visited or queued is a reachable table node, each neighbour of a visited node off the queue is visited or queued, the queue has no repeats, and nothing behind its front is visited |
| Bfs.InvStepFresh | GFASubgraph/bfs.py:12-21 | After a round the queue has no repeats and holds no visited id, its front included |
| Bfs.LoopRoundsBound | GFASubgraph/bfs.py:9-21 | The loop completes at most as many rounds as there are unvisited table nodes, plus one when the front is already visited |
| Bfs.BfsRounds | GFASubgraph/bfs.py:9-21 | Started by `bfs`, the `while` loop completes at most `len(graph)` rounds |
| Bfs.LoopSound | GFASubgraph/bfs.py:9-21 | From a state satisfying the loop invariant, the loop's result holds the start, only reachable table nodes, and at most `max(|nh|, size + 1)` nodes |
| Bfs.LonelyComponent | GFASubgraph/bfs.py:47-48 | The component of a node without neighbours is the node alone |
| GfaRead.ParseSegment | GFASubgraph/graph_io.py:100-109 | An S line parses exactly when it has at least three tab fields (otherwise `IndexError`); the node has no edges and is not visited |
| GfaRead.ParseLink | GFASubgraph/graph_io.py:115-118 | An L line gives `IndexError` exactly when it has fewer than six fields; with six or more it fails exactly when `int()` rejects the sixth field less its last character, and then with `ValueError` |
| GfaRead.AddIfAbsent | GFASubgraph/graph_io.py:132-157 | The membership test then `append`: the entries are the old ones plus the new one, and a duplicate-free list stays so |
| GfaRead.AddLink | GFASubgraph/graph_io.py:117-157 | The four orientation branches succeed exactly when both ids are table keys, fail with the `KeyError` of the first missing one, and on success store `(to, ToSide, overlap)` on side `FromSide` of `from` and `(from, FromSide, overlap)` on side `ToSide` of `to` |
| GfaRead.OrientationTable | GFASubgraph/graph_io.py:121-157 | The rows `- -`, `- +`, `+ +`, `+ -` put the documented entry on the documented side of each endpoint |
| GfaRead.AttachGrows | GFASubgraph/graph_io.py:132-157 | A guarded append adds the one entry to the one side and changes no other list |
| GfaRead.AddLinkKeeps | GFASubgraph/graph_io.py:131-157 | Adding a link between table nodes keeps edge symmetry, duplicate-free sides, ids equal to keys, and the key set |
| GfaRead.PairSymmetric | GFASubgraph/graph_io.py:131-157 | Storing both halves of an edge keeps edge symmetry |
| GfaRead.PairNoDup | GFASubgraph/graph_io.py:131-157 | Storing both halves keeps the sides duplicate-free and the keys and ids unchanged |
| GfaRead.AddLinkIdempotent | GFASubgraph/graph_io.py:131-157 | Repeating a link line changes nothing |
| GfaRead.AttachPresent | GFASubgraph/graph_io.py:132-133 | The guarded append of an entry already present changes nothing |
| GfaRead.ReadGfa | GFASubgraph/graph_io.py:95-159 | The two loops compute `Decode`: the first pass over the lines, then the set-aside L lines in order, stopping at the first exception |
| GfaRead.ScanErrSticks | GFASubgraph/graph_io.py:98-112 | An exception in the first pass ends the whole read with that exception |
| GfaRead.ApplyErrSticks | GFASubgraph/graph_io.py:114-157 | An exception during the edge loop ends the whole read with that exception |
| GfaRead.ScanFresh | GFASubgraph/graph_io.py:100-109 | After the first pass every node is stored under its id and has no edges yet |
| GfaRead.ApplyKeeps | GFASubgraph/graph_io.py:114-157 | The edge loop keeps edge symmetry, duplicate-free sides, ids equal to keys, and the key set |
| GfaRead.DecodeWellFormed | GFASubgraph/graph_io.py:95-159 | A decoded table is symmetric, duplicate-free and stores each node under its id |
| GfaRead.ScanIgnores | GFASubgraph/graph_io.py:100-112 | A line starting with neither `S` nor `L` changes nothing |
| GfaRead.LastSegmentWins | GFASubgraph/graph_io.py:100-109 | A later S line for an id replaces the earlier node |
| GfaRead.ScanSameAfter | GFASubgraph/graph_io.py:98-112 | Two line prefixes with the same first-pass state keep the same state under any common continuation |
| GfaRead.LinkBeforeSegment | GFASubgraph/graph_io.py:98-114 | Swapping an adjacent L line and S line does not change the decoded table, because all segments are read before any link is applied |
| GfaWrite.WriteGfa | GFASubgraph/graph_io.py:35-75 | The loops write `Encode(g, subset)`: for each requested id in the table its S line, then the L lines for its `start` and then its `end` entries; requested ids outside the table produce nothing |
| GfaWrite.WriteNode | GFASubgraph/graph_io.py:36-75 | One pass of the outer loop writes the node's S line and then its start-side and end-side L lines, or nothing for an id outside the table |
| GfaWrite.SideLoop | GFASubgraph/graph_io.py:52-72 | One edge loop yields `SideEdges`: one L line per entry whose neighbour is requested, in list order |
| GfaWrite.SideEdges | GFASubgraph/graph_io.py:52-72 | A side yields at most one L line per entry |
| GfaWrite.SideEdgesComplete | GFASubgraph/graph_io.py:52-72 | Every entry whose neighbour is requested gets its L line |
| GfaWrite.SideEdgesSound | GFASubgraph/graph_io.py:52-72 | Every L line written stands for an entry whose neighbour is requested |
| GfaWrite.EdgeLineParses | GFASubgraph/graph_io.py:53-72 | The L line written for an entry splits into six fields and decodes to that link: the origin is `-` for a start-side entry, the destination is `-` exactly when the stored side is not 0, and the overlap survives `str` then `int` |
| GfaWrite.EdgeLineRecreates | GFASubgraph/graph_io.py:52-72 | Decoding the L line written for an entry stores that entry on its side again, and its reciprocal on the side it names |
| GfaWrite.EdgeLineNoOp | GFASubgraph/graph_io.py:52-72 | Reading a written L line back into the symmetric table it came from changes nothing |
| GfaWrite.SegmentLineParses | GFASubgraph/graph_io.py:41-46 | The S line written for a node with a whitespace-free id and sequence starts with `S` and reads back with that id and sequence, no edges, the tags followed by the newline, and the length counting the newline when there are no tags |
| GfaWrite.TaggedSegmentParses | GFASubgraph/graph_io.py:42 | A tagged S line splits into `S`, the id, the sequence, and tags that join back to the tags plus the newline |
| GfaWrite.PlainSegmentParses | GFASubgraph/graph_io.py:44 | An untagged S line splits into `S`, the id, and the sequence plus the newline, which `strip()` removes |
| GfaWrite.SegmentLineOneLine | GFASubgraph/graph_io.py:41-46 | The S line written for a node whose id, sequence and tags hold no line break ends in its only newline and holds no carriage return |
| GfaWrite.EdgeLineOneLine | GFASubgraph/graph_io.py:52-72 | Every L line written between whitespace-free ids ends in its only newline and holds no carriage return |
| GfaRoundTrip.SideEdgesLines | GFASubgraph/graph_io.py:52-72 | Each L line written for a side list is exactly one line |
| GfaRoundTrip.NodeChunkLines | GFASubgraph/graph_io.py:36-75 | Each string written for one requested id is exactly one line |
| GfaRoundTrip.EmitLines | GFASubgraph/graph_io.py:35-75 | Each string `write_gfa` writes is exactly one line |
| GfaRoundTrip.WrittenFileLines | GFASubgraph/graph_io.py:46-99 | Reading back the file `write_gfa` wrote, in text mode, yields exactly the strings it wrote, one per line |
| GfaRoundTrip.ScanEmit | GFASubgraph/graph_io.py:35-112 | The first reading pass over the written lines stores a fresh node per requested table node and sets aside exactly the written L lines |
| GfaRoundTrip.ScanLinkLines | GFASubgraph/graph_io.py:111-112 | L lines are only set aside by the first pass |
| GfaRoundTrip.ApplyWritten | GFASubgraph/graph_io.py:114-157 | Applying written L lines succeeds, keeps the table inside the induced subgraph, and only ever adds entries |
| GfaRoundTrip.ApplyWrittenStores | GFASubgraph/graph_io.py:114-157 | Once the written L lines are applied, every entry between requested nodes that one of them was written for is stored on its side |
| GfaRoundTrip.LastLineStores | GFASubgraph/graph_io.py:114-157 | Applying one more written L line keeps every entry stored so far and stores the entry that line was written for |
| GfaRoundTrip.EdgesOfCover | GFASubgraph/graph_io.py:52-72 | Every entry between requested table nodes has its L line among the written lines |
| GfaRoundTrip.EdgesOfGood | GFASubgraph/graph_io.py:52-72 | Every written L line decodes to a link whose two halves the table stores, between requested nodes |
| GfaRoundTrip.EncodeDecode | GFASubgraph/graph_io.py:7-159 | `read_gfa` on the file `write_gfa` wrote for a subset succeeds and yields the induced subgraph: exactly the requested table nodes, with the id, sequence and tags their S lines carry, and on each side the same set of entries as the original among those whose neighbour was requested; order and repeated entries are not kept |
| GfaRoundTrip.DecodeWritten | GFASubgraph/graph_io.py:35-159 | Decoding the sequence of written lines succeeds and yields the induced subgraph |
| GfaRoundTrip.EncodeDecodeAll | GFASubgraph/graph_io.py:7-159 | Writing every node to a file and reading the file back gives the same keys, and the same set of entries on every side; order and repeated entries are not kept |
| GfaRoundTrip.EncodeDecodeAllCounts | GFASubgraph/graph_io.py:7-159 | For a table without repeated entries, writing every node and reading the file back gives the same keys and every side list as a permutation of the original |
| GfaRoundTrip.WholeSubgraph | GFASubgraph/graph_io.py:52-72 | The subgraph induced by every node of a symmetric table has all of its keys and all of its entries |
| Alignments.Commas | GFASubgraph/main_helpers.py:41-42 | The two `replace` calls keep the length and leave no marker |
| Alignments.PathIds | GFASubgraph/main_helpers.py:41-43 | The path yields at least one id |
| Alignments.PathIdsClean | GFASubgraph/main_helpers.py:41-43 | No parsed id contains a marker or a comma |
| Alignments.PathIdsCount | GFASubgraph/main_helpers.py:40-43 | A marker-led path without commas yields exactly one id per marker |
| Alignments.PathIdsRender | GFASubgraph/main_helpers.py:40-43 | Reading the path field of a walk gives the walk's ids in order, the substrings between the markers |
| Alignments.ParseGafLine | GFASubgraph/main_helpers.py:37-43 | A stripped line with fewer than six tab fields or an empty path field raises `IndexError`; it yields a record exactly when the path field starts with `>` or `<` |
| Alignments.ReadGaf | GFASubgraph/main_helpers.py:34-45 | The loop over the lines computes `ReadAlignments`, stopping at the first exception |
| Alignments.ReadErrSticks | GFASubgraph/main_helpers.py:36-43 | An exception on a line ends the whole read with it |
| Alignments.ReadSkips | GFASubgraph/main_helpers.py:40 | A record whose path does not start with a marker is not added |
| Alignments.ReadLastWins | GFASubgraph/main_helpers.py:43 | A later record with the same name replaces the earlier one |
| Alignments.ReadAlignmentsClean | GFASubgraph/main_helpers.py:40-43 | Every stored id list comes from a marker-led path, so no id carries a marker or a comma |
| Alignments.SeqSizeSpec | GFASubgraph/main_helpers.py:15-19 | The sum succeeds exactly when every id is a table key; otherwise the error names the first missing id |
| Alignments.SeqSize | GFASubgraph/main_helpers.py:15-19 | The counter loop computes `SeqSizeSpec` |
| Alignments.SeqSizeErrSticks | GFASubgraph/main_helpers.py:17-18 | A missing id ends the loop with its `KeyError` |
| Alignments.SeqSizeAppend | GFASubgraph/main_helpers.py:15-19 | The size of a concatenation is the sum of the sizes |
| Alignments.SeqSizeMiddle | GFASubgraph/main_helpers.py:17-18 | An id anywhere in the list adds exactly its `seq_len` |
| Alignments.SeqSizeReorder | GFASubgraph/main_helpers.py:15-19 | The order of the ids does not change the size |
| Alignments.Extract | GFASubgraph/main_helpers.py:48-59 | `final_nodes` only grows |
| Alignments.ExtractAlignments | GFASubgraph/main_helpers.py:48-59 | The two loops compute `Extract`: absent nodes are skipped, `n_size == 1` adds the node itself, any other size adds its `bfs` neighbourhood, and a failing search ends the call |
| Alignments.ExtractFailSticks | GFASubgraph/main_helpers.py:57 | A failing search ends the call with the additions so far |
| Alignments.ExtractShift | GFASubgraph/main_helpers.py:58-59 | The result is the incoming `final_nodes` united with what the alignment nodes contribute on their own |
| Alignments.ExtractIdempotent | GFASubgraph/main_helpers.py:58-59 | Running again on its own result adds nothing |
| Alignments.ExtractAbsent | GFASubgraph/main_helpers.py:50-52 | Alignment nodes outside the table contribute nothing |
| Alignments.ExtractPathOnly | GFASubgraph/main_helpers.py:54-55 | With `n_size == 1` exactly the present alignment nodes are added |
| Alignments.ExtractComplete | GFASubgraph/main_helpers.py:54-59 | Without a failure, each present alignment node's whole contribution is in the result |
| Alignments.ExtractSound | GFASubgraph/main_helpers.py:49-59 | Every added node is a table node reachable from some present alignment node |
| Text.Split | GFASubgraph/graph_io.py:101 | `str.split(c)` gives at least one piece |
| Text.JoinSplit | GFASubgraph/graph_io.py:101-109 | Joining the pieces of a split with the same separator gives the string back |
| Text.SplitJoin | GFASubgraph/graph_io.py:42-44 | Splitting a join of separator-free pieces gives the pieces back |
| Text.SplitLength | GFASubgraph/main_helpers.py:43 | A split has one more piece than the string has separators |
| Text.SplitPiecesFree | GFASubgraph/main_helpers.py:43 | No piece contains the separator |
| Text.SplitWs | GFASubgraph/graph_io.py:115 | The fields of `split()` are non-empty and contain no whitespace |
| Text.SplitWsJoin | GFASubgraph/graph_io.py:57-72 | A line of whitespace-free fields joined by one whitespace character and ended by one splits back into those fields |
| Text.StripTrimmed | GFASubgraph/graph_io.py:107 | `strip()` of a string without whitespace at either end is the string itself |
| Text.StripNewline | GFASubgraph/graph_io.py:107 | A trailing newline is removed by `strip()` |
| Text.Replace | GFASubgraph/main_helpers.py:41-42 | `replace(a, b)` keeps the length and swaps exactly the occurrences of `a` |
| Text.ParseIntToStr | GFASubgraph/graph_io.py:118 | `int(str(i)) == i` for every integer |
| Text.IntToStrNoSpace | GFASubgraph/graph_io.py:53 | `str(i)` is non-empty and contains no whitespace |
| Text.JoinFree | GFASubgraph/graph_io.py:42-44 | A character that is neither the separator nor in any part is not in the join |
| Text.SplitLinesConcat | GFASubgraph/graph_io.py:99 | The lines a text yields, put back together, give the text |
| Text.SplitLinesLine | GFASubgraph/graph_io.py:99 | Text up to and including its first newline is the first line |
| Text.SplitLinesOfConcat | GFASubgraph/graph_io.py:99 | Text written as a sequence of strings that are one line each splits back into exactly those strings |
| Text.TranslateFree | GFASubgraph/graph_io.py:98 | Text-mode newline translation leaves text without carriage returns unchanged |
| Text.ConcatFree | GFASubgraph/graph_io.py:46-75 | Strings without carriage returns written in order give a file without one |
| Text.FileLinesOfConcat | GFASubgraph/graph_io.py:98-99 | Writing strings that are one line each and reading the file in text mode yields those strings |
| Text.NoSpaceBreaks | GFASubgraph/graph_io.py:101 | Newline, carriage return and tab are whitespace, so a whitespace-free string holds none of them |
| Text.Sort | GFASubgraph/Node.py:39 | The result is sorted and a permutation of the input |
| Text.SortedUnique | GFASubgraph/Node.py:39 | Two sorted permutations of one multiset are equal, so the model's sort agrees with `sorted` |

## Left out

- File handling: opening, appending, creating, closing, the existence checks and `sys.exit` around reading and writing, and the `.gfa` suffix fix-up of `Graph.write_graph`. Reading is modelled on the sequence of lines a file yields, each keeping its terminator. Writing is modelled on the sequence of strings written, in order. `Text.FileLines` connects the two: a text-mode read translates `"\r\n"` and a lone `'\r'` to `'\n'` and splits after each `'\n'`. Writing assumes a platform whose newline is `'\n'`; the translation to `os.linesep` on other platforms is not modelled.
- `Graph.__init__` with a file: it only calls `read_gfa`, which is `GfaRead.ReadGfa`.
- `Graph.write_graph`: a thin delegation to `write_gfa`, which is `GfaWrite.WriteGfa` on `graph.nodes`.
- `Graph.bfs` (Graph.py:106-115): it passes the `Graph` object itself to `bfs`. `len(graph)` works through `Graph.__len__`, but `graph[start_node]` (bfs.py:45) raises `TypeError` as written, because `Graph` declares `__slots__` and no `__getitem__`. The delegation therefore fails on every call and is not modelled; `Bfs.Bfs` models `bfs` itself, on the id→Node map.
- `Graph.output_components`: it relies on a `connected_components` module that is not part of this model, and on file naming.
- `Node.__sizeof__`, `Graph.__str__`, the unused `b_chains` and `child_parent` fields, and the `kc`/`km` constructor arguments: runtime accounting and dead state.
- `bfs_queue`: its purpose is to coordinate worker processes through a multiprocessing queue. `error` only prints and exits. `main.py` is command-line plumbing. All logging calls are left out as well.
- The reading of GAF files in `read_gaf`: only the per-line logic and the loop over lines are modelled.
- Iteration order of dictionaries and sets: `write_gfa`'s default subset (the table's keys in dictionary order) is passed in as an explicit sequence. `seq_size` and `extract_alignments` take their ids as a sequence, and the `set_of_nodes` loop of `extract_alignments` is shown to be order-independent.
- The round count `LoopRounds` of the BFS loop counts only completed rounds; the round that raises `KeyError` for a popped id outside the table is not counted.
- Python's `int()` also accepts surrounding whitespace and non-ASCII digits. The split that produces the overlap field leaves no whitespace in it, and only ASCII digits (with underscores) are modelled.
- `Text.IsSpace` covers the ASCII whitespace characters and the Unicode separators that `split()`/`strip()` recognise. No Unicode normalisation is modelled.
- Graphs.Graph.RemoveNode: requires that no `list.remove` or lookup raises. In Python a failure part-way leaves the earlier removals in place; the model does not capture that partial state. `Adjacency.RemovedNode` returns `None` for those inputs.
- Graphs.Graph.RemoveLonelyNodes: requires every node to be stored under its own id (which the decoder guarantees). Otherwise `remove_node(n.id)` might raise or remove a different key.
- Alignments.ExtractAlignments: `final_nodes` is modelled by value. The method returns the new set together with the search error that stopped it, rather than mutating a caller's set in place, so aliasing of that set is not modelled.
- Bfs.Bfs: the `queue`, `visited` and `neighborhood` objects are local values, and their aliasing between `bfs` and `main_while_loop` is not modelled. A `KeyError` is returned as `Err(MissingNode(id))`.
- GfaRoundTrip.EncodeDecode: requires edge symmetry, ids equal to keys, ids and sequences without whitespace, and tags without `'\n'` or `'\r'`. Whitespace inside an id would change how `split()` cuts the L lines (graph_io.py:115). An S line is split on `'\t'` only (graph_io.py:101), so in a sequence only a tab, `'\n'` or `'\r'` would change the split, and whitespace at either end of the sequence is lost to `strip()` (graph_io.py:107). The theorem asks for no whitespace in a sequence at all, which is stronger than necessary: interior spaces would round-trip as well. Tags that `read_gfa` stores keep the line's newline at their end, so a table read from a file falls outside the theorem; writing such tags emits an extra blank line after the S line. A line break inside the tags would split the S line.
- GfaWrite.SideEdges: its own contract states only the bound on the number of lines. Completeness and soundness are stated in `GfaWrite.SideEdgesComplete` and `GfaWrite.SideEdgesSound`.
