# Metro route finder: a verified model

The project being modelled has two parts.

- **The route finder** is the browser side, in `src/graph.js`. It builds a graph of metro stops from stop and edge records, and merges records that share a stop name into one node. When a user clicks two stops, it finds the shortest route between them with Bellman-Ford. It then reports the travel time and counts the line changes along the route.
- **The cleaning script** is `data/SortData.py`. It turns the raw `V;...` and `E a b t` lines into the stop rows and edge rows that the route finder reads.

The model is written in Dafny, with one module per concern:

| module | file | what it holds |
|---|---|---|
| `Wrappers` | `wrappers.dfy` | the `Option` type |
| `Routes` | `routes.dfy` | the Bellman-Ford tables stated as values, and what the passes establish |
| `PathCost` | `path_cost.dfy` | `printTime`'s sum along a route, and `highlightPath`'s edge-matching test |
| `Transfers` | `transfers.dfy` | the change-counting loop inside `handleNodeClick`, with a specification function |
| `GraphStore` | `graph.dfy` | the classes `Node` and `Graph`, with their methods and the click state machine |
| `Folding` | `folding.dfy` | `createNetwork`'s folding of stop records into nodes, and its edge construction |
| `SortData` | `sort_data.dfy` | the cleaning script, with files replaced by sequences of lines and rows |

State that the source changes in place is modelled as objects with fields:
- the node id counter, with `Node`'s static `idCounter` as a field of an `IdCounter` object;
- a node's `lineCount` and `lines`;
- the graph's `nodes`, `edges`, `nodeMap` and `selectedStartNode`.

The loops of the source are methods. Most are proved equal to a specification function, and the properties are proved about those functions:
- Bellman-Ford's initialisation, passes and scan;
- the time sums and the highlight scan;
- the transfer count;
- the record fold and the edge loop;
- the script's four loops: the line parse, the count append, the `sommet_dict` build and the second pass.

Bellman-Ford's path reconstruction (`FollowPredecessors`) is specified instead by the chain it returns. The chain ends at the end node, links each node to its predecessor, starts at a node without a predecessor and repeats no node. These properties fix the chain uniquely.

Edge weights are integers. `Infinity` is `Dist.Inf`.

The reconstruction loop of `findShortestPath` has no bound in the source. The model needs none either. It proves that once the negative-cycle scan finds nothing to relax, the predecessor graph has no cycle. This comes from the invariant that every predecessor cycle contains a hop that can still relax. `FollowPredecessors` therefore terminates, and what it returns is a shortest route.

On the line lists `[1]`, `[1,2]`, `[2]` the code counts one change, because the last stop does not serve line 1 (`Transfers.OneChangeThroughSharedStop`).

## Model

| member | source | states |
|---|---|---|
| Routes.Init | src/graph.js:130-134 | after initialisation, both dictionaries are keyed by exactly the node ids. The start is at distance 0, every other node is infinitely far, and no node has a predecessor |
| Routes.RelaxEdge | src/graph.js:140-143 | relaxing u→v sets `predecessors[v] = u` and `dist[v] = dist[u] + w`, which is a strict decrease. No other distance changes, and an edge that cannot relax changes nothing. An unreached or unknown `from` never relaxes |
| Routes.PassNeverIncreases | src/graph.js:137-145 | a relaxation pass keeps the same keys and never raises any distance |
| Routes.InitInv | src/graph.js:130-134 | the initial tables satisfy the pass invariant: the start is at 0, every predecessor is backed by an edge, and every predecessor cycle has a hop that can still relax |
| Routes.RelaxKeepsInv | src/graph.js:140-143 | one relaxation preserves that invariant |
| Routes.PassesKeepInv | src/graph.js:137-145 | any number of passes from the initial tables preserves it |
| Routes.StableHasNoPredCycle | src/graph.js:148-162 | once no edge can relax, the predecessor graph has no cycle, so following predecessors from any node ends |
| Routes.WalkBound | src/graph.js:148-154 | once no edge can relax, every node a walk reaches from a reached node is reached, and its distance is at most the walk's weight |
| Routes.TightWalk | src/graph.js:157-162 | along a predecessor chain, the end's distance is the first node's distance plus the weight of a walk along the chain |
| Routes.ChainStartsAtStart | src/graph.js:157-168 | a predecessor chain that ends at a reached node and has no predecessor at its head begins at the start node |
| Routes.ReconstructedIsShortest | src/graph.js:157-177 | the chain read back from a stable table is a simple route from the start, carried by a walk that no other walk undercuts |
| PathCost.FirstEdge | src/graph.js:200 | `edges.find` for a hop gives the first index with matching endpoints, and none if no edge matches |
| PathCost.TimeAlongIsWalkWeight | src/graph.js:196-204 | when every hop has an edge, the reported total is the weight of the walk that takes each hop's first matching edge |
| PathCost.FollowedWeightIsTimeAlong | src/graph.js:196-204 | when parallel edges agree, any walk along the route weighs exactly the reported total |
| PathCost.ReportedTimeOfShortestRoute | src/graph.js:194-204 | for a shortest route, the reported total is at least the best walk's weight, and when parallel edges agree no walk is shorter than it |
| PathCost.HighlightIgnoresDirection | src/graph.js:272 | the highlight test marks the same edges for a route and for its reverse |
| PathCost.FollowedEdgesHighlighted | src/graph.js:268-281 | every edge a walk takes along the route is highlighted |
| Transfers.FirstShared | src/graph.js:515 | `find(line => next.includes(line))` gives the first line of the stop that the next stop also serves: every earlier line of the stop is missing from the next stop. It gives nothing exactly when no line is shared |
| Transfers.InitialLine | src/graph.js:514-517 | the first line is the first stop's only line, or else `FirstShared` of stops 0 and 1 (the first shared line). It is undefined for an empty route or a first stop without lines. It throws exactly on a one-stop route whose stop has two or more lines |
| Transfers.NewLine | src/graph.js:530 | after a change, the new line is the first line of stop i+1 that stop i+2 also serves, when there is one and it is not the empty (falsy) string. Otherwise it is stop i+1's first line, and it is absent exactly when stop i+1 has no lines |
| Transfers.CountTransfers | src/graph.js:514-541 | the loop's count equals the specification function `NumberOfChanges` |
| Transfers.ChangesBounded | src/graph.js:519-541 | from stop i on, the loop counts at most one change per remaining hop |
| Transfers.NoChangesIff | src/graph.js:524-534 | no change is counted from stop i on exactly when every later stop serves the current line |
| Transfers.ChangesAtMostHops | src/graph.js:514-541 | a route of n stops counts at most n-1 changes |
| Transfers.NoChangesWhenOneLineServesAll | src/graph.js:514-541 | the count is 0 exactly when the initial line is served by every later stop |
| Transfers.ThrowsOnlyOnSingleStop | src/graph.js:514-515 | the count fails, with the source's TypeError, exactly on a one-stop route whose stop has two or more lines |
| Transfers.OneChangeThroughSharedStop | src/graph.js:519-534 | the lines `[1]`, `[1,2]`, `[2]` count one change |
| GraphStore.IdCounter.GenerateId | src/graph.js:357-360 | returns the counter's value and increments it |
| GraphStore.Node.constructor | src/graph.js:334-342 | a new node takes the next id and stores its label; its line count is 1 and its line list is empty |
| GraphStore.Node.IncrementLineCount | src/graph.js:375-377 | the line count goes up by one, and the lines are unchanged |
| GraphStore.Node.AddLine | src/graph.js:393-397 | a line is appended only when absent. The list stays duplicate-free and afterwards holds the old lines plus this one |
| GraphStore.LabelIndexIsLastWins | src/graph.js:68-71 | `nodeMap` knows exactly the labels of the added nodes, and maps each to the id of the last node with that label |
| GraphStore.FindById | src/graph.js:473 | `nodes.find` by id gives the first node with that id, and none exactly when no node has it |
| GraphStore.LineListsAligned | src/graph.js:504-512 | for a route of known ids, the collected line lists align one-to-one with the route's nodes |
| GraphStore.Graph.constructor | src/graph.js:44-49 | a new graph is empty, with no selection |
| GraphStore.Graph.AddNode | src/graph.js:68-71 | the node is appended and `nodeMap[label]` is set to its id, overwriting any earlier mapping. Nothing else changes |
| GraphStore.Graph.AddEdge | src/graph.js:90-92 | the edge is appended and nothing else changes |
| GraphStore.Graph.FindShortestPath | src/graph.js:114-178 | null when a label is unknown. Otherwise a route is returned exactly when, after the n-1 passes over n nodes, no edge can relax and the end is reachable. A returned route is a shortest route from start to end, with each node's predecessor being the node before it |
| GraphStore.Graph.PrintTime | src/graph.js:194-204 | the loop's total is the sum of the first matching edge's time over the hops, with a missing edge adding 0 |
| GraphStore.Graph.PrintTimeWithChanges | src/graph.js:229-241 | the same sum plus exactly 120 seconds per change |
| GraphStore.Graph.HighlightPath | src/graph.js:266-282 | an edge index is marked exactly when the edge joins two consecutive stops of the route, in either direction |
| GraphStore.Graph.CollectLines | src/graph.js:502-512 | the collected line lists are those of the route's known nodes, in route order |
| GraphStore.Graph.RouteBetween | src/graph.js:492-547 | the second click gives one of three outcomes. "No route" happens exactly when the passes leave a relaxable edge or the end is unreachable. A TypeError happens exactly when the passes leave nothing to relax, start equals end, and that stop has two or more lines. Otherwise a shortest route is shown, with its change count (below the number of stops) and its total time plus 120 seconds per change |
| GraphStore.Graph.HandleNodeClick | src/graph.js:470-557 | an empty click or an unknown id changes nothing. A first click stores the node. A second click computes the route outcome and clears the selection, except when the line lookup throws, which happens exactly when both clicks are on one stop that has two or more lines and no edge still relaxes |
| GraphStore.InitialTables | src/graph.js:126-134 | the initialisation loop builds exactly the initial tables |
| GraphStore.RelaxPass | src/graph.js:138-144 | the `forEach` over the edges performs exactly one pass |
| GraphStore.RelaxationPasses | src/graph.js:137-145 | the outer loop performs exactly max(n-1, 0) passes |
| GraphStore.FollowPredecessors | src/graph.js:157-162 | the reconstruction ends at the end node and links each node to its predecessor. Its head has no predecessor and no node repeats |
| GraphStore.HasRelaxableEdge | src/graph.js:148-154 | the scan finds an edge exactly when some edge can still relax |
| GraphStore.ChainStaysSimple | src/graph.js:159-162 | on a stable table, a predecessor chain never comes back to a node it has visited |
| Folding.FirstIndexOf | src/graph.js:607 | `nodes.find(n => n.label === name)` gives the first node with that label, and none exactly when no node has it |
| Folding.FoldSpec | src/graph.js:592-620 | the fold gives one node per distinct name, with sequential ids from the counter. `nodeMap` maps each name to its node. Each node's `lineCount` is the number of records with its name, and its `lines` are their distinct `Line` values in first-seen order |
| Folding.FoldKeys | src/graph.js:599-604 | `nodeMap`'s keys are exactly the names of the records |
| Folding.FoldCounts | src/graph.js:599-619 | per name, the count is the number of records and the lines are their distinct lines in order |
| Folding.AsWrittenSplitsFirstName | src/graph.js:599 | as written, two records named "A", folded from id 0, give two nodes with index `A ↦ 1`. Corrected, they give one node with both lines |
| Folding.AsWrittenAgreesFromOne | src/graph.js:599 | when ids start above 0, the as-written fold equals the corrected one |
| Folding.EdgeForSpec | src/graph.js:636-639 | an edge record becomes an edge exactly when both of its ids are stop ids. The edge keeps the record's time and joins the `nodeMap` ids of the names of the first stop records carrying those ids |
| Folding.EdgesForSpec | src/graph.js:635-640 | the edges succeed exactly when every record gives an edge, and then correspond to the records one-to-one |
| Folding.EdgesForFailsIff | src/graph.js:636-637 | edge building fails exactly when some edge record names an id that is not a stop |
| Folding.EdgesJoinNodes | src/graph.js:635-640 | every built edge joins two nodes of the graph |
| Folding.AddStops | src/graph.js:592-620 | the stop loop builds a graph whose nodes, `nodeMap` and counter are exactly the fold's |
| Folding.NewStop | src/graph.js:599-604 | a new name adds one fresh node and one `nodeMap` entry, as one fold step |
| Folding.FirstNode | src/graph.js:601-618 | a new node for a record takes the counter's next id and the record's name, counts one record and holds exactly the record's line |
| Folding.KnownStop | src/graph.js:605-619 | a known name updates the first node with it, as one fold step |
| Folding.AddEdges | src/graph.js:635-640 | the edge loop appends exactly the built edges, and fails exactly when building fails |
| Folding.CreateNetwork | src/graph.js:583-640 | the result is null exactly when an edge record names an unknown id. Otherwise the graph is the fold's nodes and `nodeMap` with the built edges, all joining its nodes, and no selection |
| SortData.StripSpec | data/SortData.py:19 | `strip()` leaves a middle slice of the line, removing only whitespace at either end and all of it |
| SortData.StripIdempotent | data/SortData.py:19 | stripping twice equals stripping once |
| SortData.SplitFieldsFree | data/SortData.py:22 | no field of `split(";")` contains the separator |
| SortData.JoinSplit | data/SortData.py:22 | joining the fields with the separator gives the line back |
| SortData.SplitJoin | data/SortData.py:51 | splitting a join of separator-free fields gives those fields back |
| SortData.ZFillKeepsValue | data/SortData.py:52-53 | `zfill(4)` on a digit id reaches at least four characters, ends with the id, and spells the same number |
| SortData.ZFillIdempotent | data/SortData.py:52-53 | padding twice equals padding once |
| SortData.ParseRaw | data/SortData.py:18-61 | the line loop computes the specification function `Parse`. An IndexError stops it |
| SortData.ParseLineStep | data/SortData.py:19-61 | a line fails exactly when it is short for its kind. A `V` line adds one stop row, made of its fields 1 to 4 and the colour of its line when known. An `E` line with a non-zero time adds one edge: its two ids padded to four characters, and its time. Every other line adds nothing |
| SortData.ParseRows | data/SortData.py:18-61 | stop row k is built from the fields of the k-th `V` line, and edge k from the padded ids and the time of the k-th `E` line whose time is not zero |
| SortData.ParseNamesTally | data/SortData.py:22-26 | the number of stop rows with a name equals the number of `V` lines whose name field is that name |
| SortData.ParseSucceedsIff | data/SortData.py:22-53 | the parse fails exactly when some `V` line has fewer than 5 fields or some `E` line fewer than 4 |
| SortData.ParseRowShapes | data/SortData.py:20-61 | there is one stop row per `V` line and one edge per `E` line whose time is not "0" or "0.0". A stop row has a colour exactly when its line is in the colour table, and edge ids are at least four characters |
| SortData.ParseCounter | data/SortData.py:26 | `nom_counter` holds, for each name, the number of stop rows with that name |
| SortData.ParseSpec | data/SortData.py:18-61 | all of the parse properties together: failure exactly on a short line; otherwise the rows and edges built from their lines in order, their shapes, and a counter equal to the number of `V` lines per name |
| SortData.AppendCounts | data/SortData.py:64-66 | each stop row is extended with its name's counter value |
| SortData.CountsTallyNames | data/SortData.py:63-66 | after the append, every stop row keeps its fields and ends with the number of `V` lines that carry its name |
| SortData.UncolouredCountUnderColor | data/SortData.py:66-72 | a row without a colour has five fields, so its count falls in the column headed `Color` |
| SortData.SommetDictSpec | data/SortData.py:107-108 | `sommet_dict` knows exactly the rows' ids, and gives each the name of the last row with that id |
| SortData.BuildSommetDict | data/SortData.py:107-108 | the loop builds `sommet_dict` with later rows overwriting earlier ones |
| SortData.SecondPass | data/SortData.py:122-146 | the edge loop computes `Rewrite` with the zero guard corrected, stopping at a KeyError with the rows written so far |
| SortData.RewriteRows | data/SortData.py:122-146 | the pass finishes exactly when every id is a stop. A finished pass writes each edge's rows, and any pass writes only those |
| SortData.SameNameIffZeroTime | data/SortData.py:128-137 | a written row has time 0 exactly when its two stops share a name |
| SortData.ForwardRowsKept | data/SortData.py:137 | a finished pass writes every edge forward, with its adjusted time |
| SortData.AsWrittenGuardNeverBlocks | data/SortData.py:140-144 | as written, on parsed edges, the reverse is written exactly when the stops are off the one-way routes and no reverse edge exists |
| SortData.AsWrittenReversesZeroTimeEdge | data/SortData.py:132-146 | as written, an edge between two same-name stops gets a zero-time reverse. Corrected, it does not |
| SortData.CorrectedGuard | data/SortData.py:140-144 | corrected, the reverse is written exactly when the names differ, the stops are off the one-way routes and no reverse edge exists |
| SortData.ReciprocalClosure | data/SortData.py:139-146 | after a finished pass, every edge between different names that is off the one-way routes has a reverse among the written rows |
| SortData.ZeroTimeRowsAreInputEdges | data/SortData.py:139-140 | corrected, every zero-time row written is an input edge, so no zero-time reverse is added |
| SortData.Run | data/SortData.py:9-146 | the script gives no output exactly when the parse fails. Otherwise Sommet.csv holds the counted stop rows, and Aretes.csv holds the second pass over the parsed edges, with the zero-time guard corrected as listed under Findings |

## Left out

- `parseFloat` and floating point: weights are integers, so the model has no NaN from bad text and no rounding.
- Display formatting (`toFixed`, `/ 60`) is not modelled.
- The DOM is not modelled. That covers every `getElementById`, `textContent`, `innerHTML` and `createElement`, the list of stops, and the labels written on a click.
- The `vis` library is left out: `vis.Network`, `vis.DataSet`, click registration, and the `networkData.edges.get/update` calls in `highlightPath`. What is kept is which edge indices get marked.
- `resetColors` is left out because it only recolours the display.
- Node colours (src/graph.js:624-632) are left out because they are cosmetic.
- Edge `width`, `smooth` and `arrows`, and `setDirection`, are left out because they are cosmetic.
- The display filter on self-loops, duplicates and direction (src/graph.js:642-651) is left out. It only affects what is drawn, and the graph already holds every edge.
- `fetchData` and server.js are left out because they are network and file plumbing. The records arrive as sequences.
- The `printTime` and `highlightPath` calls inside `findShortestPath` (src/graph.js:171-174) only display. They are modelled separately, as `PrintTime` and `HighlightPath`.
- `handleNodeClick` calls `resetColors` on a first click. That call is not modelled.
- `console.error` and `console.log` are not modelled.
- In data/SortData.py:
  - `os.chdir`, the file opens, `readlines` and `print` are not modelled.
  - The CSV writer and reader are taken to round-trip every cell.
  - `sommet_dict` is built from the written stop rows.
  - The first write of Aretes.csv (data/SortData.py:80-83) is not modelled, because the second pass overwrites that file.
- Folding.CreateNetwork: models `createNetwork` with the `!nodeMap[name]` test corrected, as listed under Findings. The as-written fold is `Folding.FoldAsWritten`.
- SortData.SecondPass: models the second pass with the zero-time guard corrected, as listed under Findings. The as-written guard is `ZeroGuardPasses(_, true)`.
- SortData.Strip: covers the whitespace set of Python's `str.isspace` only. Strings have no Unicode normalisation.

## Findings

| source | as written | input that shows it | evidently intended | confidence | as-written member | corrected member |
|---|---|---|---|---|---|---|
| src/graph.js:599 | `!nodeMap[name]` treats the id 0 of the first node as "name not seen yet" | two stop records named "A" (lines "1" and "2"), with the id counter starting at 0 as `generateId` does | both records fold into one node "A" with line count 2 and lines ["1", "2"] | high; not executed | Folding.AsWrittenSplitsFirstName | Folding.FoldSpec |
| data/SortData.py:140 | `time != "0"` compares with a text, but a zeroed time is the integer 0, so the guard never blocks | one edge 0001 → 0002 where both stops are named "A" and no reverse edge exists | the comment says a zero-time edge gets no reverse; as written, a reverse 0002 → 0001 with time 0 is added | medium; not executed | SortData.AsWrittenReversesZeroTimeEdge | SortData.ZeroTimeRowsAreInputEdges |
