# Routing server, router graph and router file

A Dafny model of three programs and proofs of what they promise.

**The routing server** (`home_exam`). Nodes report their edges. The server keeps the edges that both ends report with
the same weight, computes shortest paths from address 1 with Dijkstra's algorithm, turns the routes into next-hop
tables and sends each node its table. `RoutingServer.dfy` composes the stages; the result is stated in addresses only:
following the tables from address 1 leads to every node along a lightest path of agreed edges, if the addresses fit the
16 bits a packet has for them.

- `Graphs.dfy`, `CInt.dfy`: weighted graphs, paths and path weights; the C types `int` and `unsigned short`.
- `ShortestPaths.dfy`, `Dijkstra.dfy`: the invariant of the algorithm on values, and the loops over arrays.
- `Tables.dfy`, `RoutingTables.dfy`: what a table means and where lookups lead, and the loops that fill the tables.
- `Reports.dfy`, `Validation.dfy`: which reported edges are agreed on, and the counters that find the others.
- `ReportCounts.dfy`: the same by the nodes' own lists, how many edges there can be, and which networks pass the check.
- `AgreedGraph.dfy`, `AdjacencyMatrix.dfy`: the matrix of agreed edges, and the loops that build it.
- `TableLookup.dfy`, `AddressPaths.dfy`: renaming indices to addresses, for tables, walks and paths.

**The router graph** (`obligatory_assignment`). Routers hold ten slots for links to other routers. Links are added,
routers are deleted by moving the last one into the hole, and a depth-first search answers whether a route exists.

- `Routers.dfy`, `Flags.dfy`: routers, their links and their flag bytes as values, and what each operation does to them.
- `RouterPaths.dfy`, `Commands.dfy`: walks along links, what deletions do to them, and what whole runs of commands keep.
- `RouterTable.dfy`: the class whose methods change the array in place, and the search.

**The router file and the packets.** The array is read from and written to a binary file; a line of the message file
becomes a packet, which is checked.

- `FileFormat.dfy`, `FileLayout.dfy`: what is written and read, and where the bytes of a file stand.
- `FileRoundTrip.dfy`, `RouterFile.dfy`: the round trips, and the reader and writer.
- `RouterSession.dfy`: the whole program, and which sessions come back from their stored file.
- `Packets.dfy`: packets. `Bytes.dfy`: bytes.

A C struct is a datatype value; an array of structs is an array of such values, changed slot by slot. A route array and
a table array are classes that hold one two-dimensional array for the rows, which the C code allocates one by one.
Each method is proved against a function or a predicate on values, and what the program promises is proved about that.

## Where the code does less than it says

- `validation.c:42` stops the search for a counter one short of the end of a full array. A graph in which all n(n-1)/2
  edges are reported is therefore turned away when both ends agree on all of them, the pair of nodes with one edge
  included. `ReportCounts.AnsweredReportsPassIff` and `ReportCounts.ReportsPassIff` say exactly when the check passes.
- `router.c:234` compares the count after it was decremented. Deleting the first of two routers keeps that router and
  loses the other. `Routers.DeleteRemovesRouterIff` says that this is the only case.
- `router.c:191-221` removes the first link to the deleted router only. `RouterPaths.DeleteClearsLinksIff` says exactly
  when none remains.
- `node_communication.c:248` and `514` take a next hop of -1 for a missing row, and a destination is looked up as the
  16-bit field of a packet (lines 226 and 505), while the server takes any int for an address. A packet stops before a
  node with address -1, and an address outside 0 to 65535 is never found. `RoutingServer.MatchingTablesLead` says
  exactly which nodes are reached; with the addresses 1 to 1023 of the assignment all are.
- `node_communication.c:469` keeps the length of a packet in 16 bits. For a message of 65529 bytes or more it is cut,
  and `createPacket` allocates too little. `Packets.ExtractLengthDestinationAndMessage` says so exactly.
- `set_model` takes names that the file cannot hold. `RouterSession.CommandKeepsStorableIff` says which they are.
- `binary_file.c:393-406` writes the length of a model plus one in one byte, and a model of no bytes counts as a failed
  write. `FileRoundTrip.RoundTripIff` says that models of 1 to 254 bytes are the ones that come back; the assignment
  text allows at most 253.
- `dijkstra.h` says that INT_MAX marks a missing edge; the code takes 0 for it, and so does the model.

## What is demanded of the inputs

- Routing server: distinct addresses, as the assignment gives them, but of any size; positive weights, n(n-1) at most
  INT_MAX, and (n-1) times the largest weight below INT_MAX, so that no sum of weights along a simple path overflows.
  Weights of 0 or less are not supported by the code, as 0 marks a missing edge and Dijkstra's algorithm needs the
  others positive.
- `CreateRoutingTableArray`: routes that form a tree, as `dijkstra` returns them.
- Files: the host stores an unsigned int with its least significant byte first.
- Writing a file: every model is present and its length is not 255 modulo 256, where the code would read past its end.
- Commands: the name of a `set_model` is a string, so it contains no NUL.
- Packets: the line contains no NUL, and its message leaves the length of the packet within 16 bits.

## Model

| member | source | states |
|---|---|---|
| `RoutingServer.RunRoutingServer` | home_exam/routing_server/src/routing_server.c:72-150 | The server succeeds exactly when all reports find room, every reported neighbour is known, address 1 exists and every node can be reached from it over agreed edges; where every entry of every list is answered, that is exactly when some two nodes are not linked, or there is only one, and node 1 reaches all. Then looking a node up from address 1 on, each node in its own table, leads to it along a lightest path of agreed edges, without a loop, one lookup an edge, whenever its address is from 0 to 65535 and no lightest path to it passes address -1; it leads to all nodes but address 1 exactly when all addresses are from 0 to 65535. No node has a row for itself |
| `RoutingServer.LeadsOnlyToDeliverable` | home_exam/node/src/node_communication.c:223-254 | Whatever the tables, they lead to a node only if it is not the sender, its address fits the field of 16 bits, and some lightest path to it avoids address -1 |
| `RoutingServer.ComputeTables` | home_exam/routing_server/src/routing_server.c:114-139 | Succeeds exactly when all nodes can be reached, and then the tables match a tree of shortest routes |
| `RoutingServer.LookupsAlongRoute` | home_exam/node/src/node_communication.c:241-254 | k lookups by address pass exactly the first part of the route, and fail exactly when that part comes to address -1 |
| `RoutingServer.LeadsAlongRouteOnly` | home_exam/node/src/node_communication.c:241-254 | If any walk of lookups leads to a node, it is its route, renamed, and does not pass address -1 |
| `RoutingServer.NoRowForItself` | home_exam/routing_server/src/route.c:96-139 | No table has a row for its own node, so a packet from node 1 to itself finds no next hop |
| `RoutingServer.BuildGraph` | home_exam/routing_server/src/routing_server.c:72-98 | Filling the address map, validating and building the matrix gives exactly the matrix of agreed weights, or fails exactly when a report finds no room or names an unknown neighbour; where every entry is answered, it fails exactly when there are two nodes or more and all are linked |
| `RoutingServer.MatchingTablesLead` | home_exam/routing_server/src/routing_server.c:114-142 | Tables that match a tree of shortest routes, once translated, lead to d along a lightest path if and only if d is not the sender, its address fits the field and its route does not pass address -1 |
| `RoutingServer.SendRoutingTables` | home_exam/routing_server/src/routing_server_communication.c:178-245 | What each node receives is its index table with every index renamed to its address |
| `Dijkstra.Dijkstra` | home_exam/routing_server/src/dijkstra.c:11-115 | Succeeds if and only if every node can be reached from the source, and then the distances are the least path weights and the routes a tree of simple paths that realise them; no sum overflows and every route fits its row |
| `Dijkstra.Iterate` | home_exam/routing_server/src/dijkstra.c:60-107 | One iteration visits one more node and keeps the invariant; it fails only when some node cannot be reached, and an unvisited node is always found |
| `Dijkstra.GetMinDistanceIdx` | home_exam/routing_server/src/dijkstra.c:117-132 | The last of the unvisited nodes of least distance, or -1 exactly when all are visited |
| `Dijkstra.RegisterRoute` | home_exam/routing_server/src/dijkstra.c:134-192 | The route of the visited neighbour over which the node is nearest (the first such one), extended by the node; every other route is unchanged; fails exactly when no neighbour is visited |
| `Dijkstra.RegisterVisit` | home_exam/routing_server/src/dijkstra.c:74-85 | The same on values, as the caller relies on it: the predecessor is a best visited neighbour of the node |
| `Dijkstra.RelaxNeighbours` | home_exam/routing_server/src/dijkstra.c:90-106 | Exactly the relaxed distances: unvisited neighbours may drop to the distance over the visited node, all others stay |
| `Dijkstra.CollectVisitedNeighbours` | home_exam/routing_server/src/dijkstra.c:152-163 | All visited neighbours and nothing else, in index order |
| `Dijkstra.NearestOf` | home_exam/routing_server/src/dijkstra.c:165-176 | The first of the collected neighbours with the least sum, and INT_MAX exactly when there is none |
| `ShortestPaths.VisitStep` | home_exam/routing_server/src/dijkstra.c:60-107 | Visiting the nearest node, registering its route and relaxing its edges keeps both halves of the invariant |
| `ShortestPaths.VisitKeepsFrontier` | home_exam/routing_server/src/dijkstra.c:90-106 | After relaxing, visited distances are below unvisited ones, no edge out of a visited node could lower a distance, and every set unvisited distance comes over an edge from a visited node |
| `ShortestPaths.VisitSettlesRoute` | home_exam/routing_server/src/dijkstra.c:182-189 | The extended route is a simple path of weight equal to the distance, each of whose prefixes is a stored route |
| `ShortestPaths.BestNeighbourRealisesDistance` | home_exam/routing_server/src/dijkstra.c:165-176 | The predecessor recomputed from the visited neighbours gives exactly the distance found while relaxing |
| `ShortestPaths.NoNeighbourMeansUnreachable` | home_exam/routing_server/src/dijkstra.c:165-180 | If the nearest unvisited node has no visited neighbour, no path at all leads to it |
| `ShortestPaths.SettledSumFits` | home_exam/routing_server/src/dijkstra.c:96-103 | If (n-1) times the largest weight is below INT_MAX, every sum formed stays below INT_MAX |
| `ShortestPaths.AllVisitedIsShortest` | home_exam/routing_server/src/dijkstra.c:59-115 | Once all nodes are visited the distances are least among all paths and the routes form one tree that realises them |
| `Graphs.FeasibleBoundsPaths` | home_exam/routing_server/src/dijkstra.c:90-106 | If no edge can lower a distance any more, no path weighs less than the distance |
| `Graphs.ClosedSetConfinesPath` | home_exam/routing_server/src/dijkstra.c:60-107 | A path that starts among nodes closed under edges stays among them |
| `RoutingTables.CreateRoutingTableArray` | home_exam/routing_server/src/route.c:44-150 | For routes that form a tree, table s has exactly one row for d when s lies strictly before the end of the route to d and none otherwise, with the node right after s as next hop |
| `RoutingTables.AddSources` | home_exam/routing_server/src/route.c:96-139 | After one route every ordered pair of nodes on it has its row |
| `RoutingTables.AddDestinations` | home_exam/routing_server/src/route.c:101-134 | After one source of a route all later nodes on it have a row in its table, and all rows stay right and unique |
| `RoutingTables.RowKeepsSound` | home_exam/routing_server/src/route.c:110-130 | A new row keeps the tables right and unique, and there is room for it |
| `RoutingTables.HopOnLongerRoute` | home_exam/routing_server/src/route.c:101-104 | Two nodes of a longer route meet in the same order, next to the same neighbour, on the shorter route to the later one |
| `Tables.TableSize` | home_exam/routing_server/src/route.c:84-91 | A table of a tree of n routes has at most n-1 rows |
| `Tables.RowsCountHops` | home_exam/routing_server/src/route.c:96-140 | All tables together have as many rows as all routes have hops |
| `Tables.WalkFollowsRoute` | home_exam/routing_server/src/route.c:96-140 | From any node on the route to d, looking d up again and again passes exactly the rest of that route |
| `Tables.LookupOnRoute` | home_exam/node/src/node_communication.c:241-247 | On the route to d a row for d is found and leads to the next node of the route |
| `Tables.FirstAndLastMatchAgree` | home_exam/node/src/node_communication.c:508-513 | On unique destinations the search that stops at the first row and the one that keeps the last row agree |
| `TableLookup.FindForwardHop` | home_exam/node/src/node_communication.c:241-247 | The next hop of the first row for the destination, or -1 |
| `TableLookup.FindSendHop` | home_exam/node/src/node_communication.c:508-513 | The next hop of the last row for the destination, or -1 |
| `TableLookup.TranslateTableFromIdxToAddress` | home_exam/routing_server/src/routing_server_communication.c:247-273 | Row for row the index table with both columns renamed |
| `TableLookup.TranslationPreservesLookup` | home_exam/routing_server/src/routing_server_communication.c:265-270 | Looking up the address of d in the translated table gives the address of the next hop for d, and -1 when there is none; if -1 is no address, it gives -1 exactly when there is none |
| `TableLookup.SearchesAgreeAfterTranslation` | home_exam/routing_server/src/routing_server_communication.c:265-270 | After translation the sender's and the forwarder's searches still agree |
| `TableLookup.ForwardIsRenamedFollow` | home_exam/node/src/node_communication.c:241-254 | A walk by translated tables is, address for address, the walk by index tables, except that it fails exactly when that walk comes to address -1 after its start |
| `TableLookup.WalkEndsAtMinusOne` | home_exam/node/src/node_communication.c:248-254 | Three nodes in a row whose middle one has address -1: the walk by indices arrives, the walk by addresses does not |
| `Validation.CheckAllNodesReceived` | home_exam/routing_server/src/validation.c:9-96 | Succeeds exactly when all reports find room; where every entry is answered, exactly when some two nodes are not linked or there are no two. Then the invalid edges are, each once, the reported edges not reported exactly twice by two different ends with equal weight |
| `ReportCounts.AnsweredReportsPassIff` | home_exam/routing_server/src/validation.c:12-50 | Distinct addresses whose lists answer each other entry by entry find room for all their reports if and only if some two nodes are not linked, or there are no two nodes |
| `ReportCounts.ReportsPassIff` | home_exam/routing_server/src/validation.c:12-50 | Any reports find room exactly when there are none, when fewer than n(n-1)/2 edges are reported, or when just so many are and the last of them to appear is reported once only |
| `ReportCounts.PairsCount` | home_exam/routing_server/src/validation.c:12 | n distinct addresses have exactly n(n-1)/2 edges between them |
| `ReportCounts.AgreedLinkIff` | home_exam/routing_server/src/validation.c:98-138 | The edge between a and b is agreed on with weight w exactly when one entry of the list of a and one of the list of b report it with w, and no other entry of any list reports it |
| `AddressPaths.LinkWeightIff` | home_exam/routing_server/src/adjacency_matrix.c:22-69 | The weight that lightest paths are measured with is w exactly when the lists of both ends agree on w |
| `AddressPaths.PathWeightIsSum` | home_exam/routing_server/src/dijkstra.c:96-103 | The weight of a path is the sum of the weights of the two parts it is cut into, and a single link weighs what the link weighs |
| `Validation.RecordReport` | home_exam/routing_server/src/validation.c:26-85 | One report is recorded exactly when it finds room, and counters and invalid edges then match all reports so far |
| `Validation.FindCounter` | home_exam/routing_server/src/validation.c:38-74 | The counter of the edge, or none; out of bounds exactly when the array is full and the edge is not among all but the last counter |
| `Validation.CheckIfEdgeIsValid` | home_exam/routing_server/src/validation.c:98-138 | The edge becomes invalid exactly when it was seen more than twice, by the same end, or with another weight |
| `Validation.AddInvalidEdge` | home_exam/routing_server/src/validation.c:140-170 | Added unless present; fails exactly when a new edge finds the array full |
| `Validation.IsEdgePresent` | home_exam/routing_server/src/validation.c:172-182 | Whether the edge is in the part of the array in use |
| `Validation.AddEdgeToEdgeCounterArray` | home_exam/routing_server/src/validation.c:184-212 | A first sighting is appended; fails exactly when the array is full |
| `Validation.CheckDualReport` | home_exam/routing_server/src/validation.c:214-229 | Adds the edges reported only once, always with room, which makes the invalid edges exactly the disagreed ones |
| `Validation.InvalidHasRoom` | home_exam/routing_server/src/validation.c:146-156 | Invalid edges are among the counted ones, so the out-of-room branch is never taken |
| `Reports.RecordableIff` | home_exam/routing_server/src/validation.c:40-50 | The reports find room exactly when fewer than maxEdges edges are reported, or exactly maxEdges are and the last of them to appear is reported once only |
| `Reports.AgreeingReportsRecordableIff` | home_exam/routing_server/src/validation.c:40-50 | When both ends agree on every reported edge, the check passes exactly when fewer than n(n-1)/2 edges are reported |
| `Reports.CompleteGraphIsTurnedAway` | home_exam/routing_server/src/validation.c:42-50 | Two nodes that agree on the one edge between them are turned away |
| `Reports.SelfEdgeIsNotAgreed` | home_exam/routing_server/src/validation.c:118-126 | An edge from a node to itself is never agreed on |
| `AdjacencyMatrix.GetIndexFromAddress` | home_exam/utils/src/common.c:9-22 | The first index of the address, or failure and -1 exactly when it is unknown |
| `AdjacencyMatrix.CreateAdjacencyMatrix` | home_exam/routing_server/src/adjacency_matrix.c:8-72 | Succeeds exactly when every reported neighbour and every end of an invalid edge is known; each entry is the last weight reported for the pair, or 0 if the edge is invalid |
| `AdjacencyMatrix.MatrixAgreesWithValidEdges` | home_exam/routing_server/src/adjacency_matrix.c:22-69 | With the invalid edges validation found, every entry is the weight both ends agreed on, or 0, and no end of an invalid edge is unknown |
| `AgreedGraph.LastWeightIsLast` | home_exam/routing_server/src/adjacency_matrix.c:22-43 | Of several entries for the same neighbour the last one is kept |
| `AgreedGraph.EntryIsAgreed` | home_exam/routing_server/src/adjacency_matrix.c:40-68 | The last weight one end reported, unless zeroed, is the weight both ends agreed on |
| `AgreedGraph.AgreedMatrixIsUndirected` | home_exam/routing_server/src/adjacency_matrix.c:22-69 | The matrix of agreed weights is symmetric with a zero diagonal, and its weights are reported ones |
| `RouterTable.RouterArray.ExistsRoute` | obligatory_assignment/src/router.c:294-321 | On success the answer is 1 exactly when a directed walk leads from one router to the other. It fails only if some walk leads to an id that no router has, and never answers 0 then; so for a target that cannot be reached it fails exactly in that case, and it never fails when the source and all link targets exist |
| `RouterTable.ClosedVisitStaysOnRouters` | obligatory_assignment/src/router.c:323-376 | A closed set of visited existing routers proves that no walk leads to a missing one |
| `RouterTable.RouterArray.SetFlag` | obligatory_assignment/src/router.c:121-171 | In the first router with the id bit 0, 1 or 2 becomes the value and the seven others stay, or the modification number becomes the value and the low four bits stay; all else is unchanged. Fails, changing nothing, exactly when flag or value is not allowed or there is no such router |
| `Routers.AfterSetFlagIs` | obligatory_assignment/src/router.c:121-171 | When it succeeds, and the new flag byte of the first router with the id by arithmetic on the old one; every other router and every other field is unchanged |
| `Flags.FlagArithmetic` | obligatory_assignment/src/router.c:147-168 | The flag byte after set_flag, by arithmetic alone |
| `Flags.ModificationNumberIs` | obligatory_assignment/src/router.c:26-38 | The number print reads off the upper four bits, by arithmetic alone |
| `Routers.AfterSetModelIs` | obligatory_assignment/src/router.c:258-292 | The first router with the id gets the model, no other router and no other field changes; it fails exactly when no router has the id |
| `Routers.AfterAddLinkIs` | obligatory_assignment/src/router.c:63-87 | One slot changes, the first free one of the first router with the id; it fails exactly when there is no such router or slot |
| `Routers.AfterDeleteIs` | obligatory_assignment/src/router.c:226-238 | The places after a deletion: the last router takes the place of the deleted one, except that the first of two stays without its model; ids, flags and other models go along |
| `Routers.WithoutNoLink` | obligatory_assignment/src/router.c:187-223 | A router without a link to the id keeps its slots |
| `Routers.WithoutLinkIs` | obligatory_assignment/src/router.c:187-223 | Slot by slot: the last neighbour takes the place of the first link to the id and leaves a free slot |
| `RouterTable.RouterArray.SetModel` | obligatory_assignment/src/router.c:258-292 | Sets the model of the first router with the id, or fails, changing nothing, exactly when there is none |
| `RouterTable.ReverseValue` | obligatory_assignment/src/router.c:158-163 | The loop mirrors the four bits of the value |
| `Flags.SetBitIsRead` | obligatory_assignment/src/router.c:149-156 | Setting or clearing bit 0, 1 or 2 changes that bit of the flag and no other |
| `Flags.SetModificationNumberIsRead` | obligatory_assignment/src/router.c:26-38 | The modification number read by print is the value set_flag was given, and the low four bits of the flag stay |
| `Flags.MaskAndAdd` | obligatory_assignment/src/router.c:164-167 | Masking with 0x0F and adding the mirrored value, four bits up, puts it into the upper bits without touching the lower |
| `RouterTable.RouterArray.DFS` | obligatory_assignment/src/router.c:323-376 | Newly visited routers do not include the target, and all their links lead to visited routers, unless the target was reached; terminates because the free visited slots run out |
| `RouterTable.RouterArray.SearchNeighbours` | obligatory_assignment/src/router.c:361-375 | The loop over the neighbours closes the router under its links or finds the target |
| `RouterTable.AllVisited` | obligatory_assignment/src/router.c:348-351 | A full visited array holds every existing id, so the branch without free slots is only taken for a missing router |
| `RouterTable.NotVisitedNotReached` | obligatory_assignment/src/router.c:315-318 | A closed set of visited routers without the target proves that no walk leads to it |
| `RouterTable.ConnectedNeverFails` | obligatory_assignment/src/router.c:294-321 | If the source and every link target exist, no walk leads to a missing router |
| `RouterTable.RouterArray.AddLink` | obligatory_assignment/src/router.c:63-87 | The link goes to the first free slot of the first router with the id; fails, changing nothing, exactly when there is no such router or no free slot |
| `RouterTable.RouterArray.FindRouterId` | obligatory_assignment/src/router.c:89-108 | The index of the first router with the id, or -1 and failure |
| `RouterTable.FindFreeNeighbor` | obligatory_assignment/src/router.c:110-119 | The first free slot, or -1 and failure when all are taken |
| `RouterTable.RouterArray.DeleteRouter` | obligatory_assignment/src/router.c:173-256 | The array after a deletion, branch by branch as the code has it; an unknown id fails and changes nothing |
| `RouterTable.RouterArray.DeleteReference` | obligatory_assignment/src/router.c:187-223 | In one router the first link to the id is replaced by the last link |
| `Routers.WithLinkAppends` | obligatory_assignment/src/router.c:73-86 | A new link is appended to a packed list, and is refused exactly when the list is full |
| `Routers.WithoutLinkRemovesOne` | obligatory_assignment/src/router.c:187-223 | A packed list stays packed and loses one link to the id, keeping all others |
| `Routers.WithoutLinkRemovesAllIff` | obligatory_assignment/src/router.c:187-223 | No link to the id remains exactly when there was at most one |
| `Routers.DeleteRemovesRouterIff` | obligatory_assignment/src/router.c:226-237 | The router is gone after its deletion exactly when it was not the first of two |
| `Routers.DeletingFirstOfTwoLosesTheOther` | obligatory_assignment/src/router.c:234-238 | Deleting the first of two routers keeps it, without its model, and loses the second |
| `Routers.DeleteKeepsOthers` | obligatory_assignment/src/router.c:173-256 | Otherwise every other router keeps its flag and model and all links but one to the deleted router |
| `RouterPaths.NeighboursAfterDelete` | obligatory_assignment/src/router.c:185-238 | Every router left after a deletion, the first of two included, has its old neighbours less one link to the deleted id |
| `RouterPaths.DeleteClearsLinksIff` | obligatory_assignment/src/router.c:185-224 | After a deletion, the first of two included, no link to the deleted id remains exactly when no router that is left had linked it twice |
| `RouterPaths.SecondLinkIsLeft` | obligatory_assignment/src/router.c:190-222 | Three routers of which one links another twice: one of the two links is left when that one is deleted |
| `RouterPaths.DeleteRemovesItsLinks` | obligatory_assignment/src/router.c:185-237 | On duplicate-free lists exactly the links from and to the deleted router go |
| `RouterPaths.DeleteKeepsAvoidingWalks` | obligatory_assignment/src/router.c:173-256 | After a deletion v is reached from u exactly when it was reached before without passing the deleted router |
| `RouterPaths.AddLinkAppends` | obligatory_assignment/src/router.c:63-87 | Only one router changes, and its neighbours gain the new one at the end |
| `Commands.RunOneMore` | obligatory_assignment/src/router_operation.c:66-101 | A run of no commands ends in what it started with, and one with a command more in what that command makes of the result before it, or in failure if that had failed |
| `Commands.RunKeepsWellFormed` | obligatory_assignment/src/command.c:145-200 | Every run of commands that comes to its end keeps ids distinct and lists packed |
| `Commands.CarefulRunKeepsConnected` | obligatory_assignment/src/command.c:145-200 | Every such run that links only to existing and not yet linked routers, and never deletes the first of two, also keeps lists duplicate-free and every link on an existing router |
| `RouterFile.ReadBinaryFile` | obligatory_assignment/src/binary_file.c:11-72 | Reading succeeds exactly when the bytes are records and link lines in their places and all links can be added, and gives the routers they describe |
| `FileLayout.ReadLayoutIff` | obligatory_assignment/src/binary_file.c:11-198 | A file is read as given routers if and only if: its first four bytes count the records, each record is the byte 10, id, flag, a length byte of at least 2 and one byte less than it counts, with the model up to the first NUL, then come lines of the byte 10 and two ids, a last byte 10 and nothing else, and adding these links gives the routers |
| `RouterFile.ReadRouter` | obligatory_assignment/src/binary_file.c:89-146 | One router from the bytes, with the model up to its first NUL; fails on too few bytes and on length bytes 0 and 1 |
| `RouterFile.ReadAndSetNeighbors` | obligatory_assignment/src/binary_file.c:148-198 | Adds the links line by line until a newline ends the file, and counts the lines |
| `RouterFile.WriteBinaryFile` | obligatory_assignment/src/binary_file.c:236-277 | Fails exactly when the length of some model is 0 modulo 256, and otherwise gives the bytes of the routers in their places |
| `FileLayout.WrittenLayout` | obligatory_assignment/src/binary_file.c:236-462 | The written file byte for byte: the count in four bytes, for each router in turn the byte 10, id, flag, length byte and model, for each link in turn the byte 10, id and neighbour, and a last byte 10 |
| `FileFormat.ModelLengths` | obligatory_assignment/src/binary_file.c:391-406 | Models can be read for writing exactly when present and not 255 bytes modulo 256 long, and written exactly when not 0 modulo 256 |
| `RouterFile.WriteRouter` | obligatory_assignment/src/binary_file.c:372-409 | The bytes of one router; fails exactly when its length byte is 1 |
| `RouterFile.WriteNeighbors` | obligatory_assignment/src/binary_file.c:411-462 | One line for each link, router by router, and a last newline; counts the lines |
| `FileRoundTrip.WriteThenRead` | obligatory_assignment/src/binary_file.c:236-271 | What is written is read back, neighbours in order and full lists included, with each model cut to its length modulo 256 |
| `FileRoundTrip.RoundTripIff` | obligatory_assignment/src/binary_file.c:391-406 | Routers with distinct ids, packed lists and NUL-free models are written and read back unchanged exactly when every model has 1 to 254 bytes |
| `FileRoundTrip.EmptyModelIsNotWritten` | obligatory_assignment/src/binary_file.c:400-406 | A router with an empty model cannot be written |
| `FileRoundTrip.ResavingNormalises` | obligatory_assignment/src/binary_file.c:156-193 | Rewriting a file that was read with distinct ids works exactly when no model was read as empty; the lines are then grouped by router, keep each router's order and their number, and are read as the same routers |
| `FileFormat.AddAllGains` | obligatory_assignment/src/binary_file.c:188-193 | Adding lines one by one gives each router exactly its own targets, in order |
| `FileFormat.AddAllSucceeds` | obligatory_assignment/src/binary_file.c:188-193 | Lines that start at known routers and leave no more than ten neighbours are all added |
| `FileFormat.ReadingIsAddingLines` | obligatory_assignment/src/binary_file.c:156-193 | Reading lines and adding links in turn is the same as reading all lines first |
| `RouterSession.RunCommand` | obligatory_assignment/src/command.c:145-200 | Command by command, what becomes of the array and when it fails: print exactly when no router has the id, an unknown one always, exist_route only when a walk leads to a missing router, and then always if the target cannot be reached, the others exactly when their operation fails; print and exist_route change nothing |
| `RouterSession.RunCommands` | obligatory_assignment/src/router_operation.c:66-117 | The commands are run in turn up to the first that fails; if none does, the array holds the result of the whole run. Without an exist_route it fails exactly when the run does |
| `RouterSession.RunProgram` | obligatory_assignment/src/router_operation.c:43-144 | A session that ends well has stored exactly the bytes of what its commands make of the loaded routers; otherwise loading or a command fails, the length of a model is 0 modulo 256, or an exist_route met a walk to a missing router. Without an exist_route it ends well exactly when loading, the run and the writing do |
| `RouterSession.CommandKeepsStorableIff` | obligatory_assignment/src/router.c:121-292 | A command that succeeds keeps storable routers storable exactly when it neither deletes the first of two nor sets a model that is empty, longer than 254 bytes or contains NUL |
| `RouterSession.SessionIsStoredIff` | obligatory_assignment/src/router_operation.c:43-144 | For every session that comes to its end on a file with distinct ids, storing works and loading the stored file gives exactly the result if and only if every model then has 1 to 254 bytes |
| `RouterSession.SafeSessionIsStored` | obligatory_assignment/src/router_operation.c:43-144 | A session of such commands on a file without empty models is stored and loaded again as exactly its result |
| `RouterSession.FreedModelCanBeReplaced` | obligatory_assignment/src/router.c:266-288 | After the first of two routers is deleted, setting the model of the one left behind makes good for its freed string |
| `Packets.PreparePacket` | home_exam/node/src/node_communication.c:341-359 | A line with a space and a newline after it, and a message that leaves the length within 16 bits, gives a packet with the number before the first space as destination, the text up to the newline as message, the source and its own length, and the check finds nothing wrong exactly when the packet has at most 1500 bytes |
| `Packets.ExtractLengthDestinationAndMessage` | home_exam/node/src/node_communication.c:397-472 | The text between the first space and the newline after it, and the number before it; fails exactly when one of the two is missing. The length is that of the packet, and a buffer of that length holds it, exactly when it is below 65536; otherwise it is short by a multiple of 65536 |
| `Packets.LineIsTakenApart` | home_exam/node/src/node_communication.c:417-469 | A line "D message" gives back the decimal value of D and the message |
| `Packets.AtoiReads` | home_exam/node/src/node_communication.c:436 | A number may have a sign and ends at the first byte that is no digit |
| `Packets.DecimalPlaces` | home_exam/node/src/node_communication.c:436 | A digit more multiplies by ten and adds it |
| `Packets.CreatePacket` | home_exam/node/src/node_communication.c:474-501 | Byte by byte: the length, the destination and the source, high byte first, then the message and its NUL |
| `Packets.ValidatePacket` | home_exam/assignment_files/print_lib/src/print_lib.c:21-60 | With the length read off the first two bytes, high byte first: returns 0 exactly for a length from 6 to 1500 at which the message ends with its first NUL, the incomplete code exactly for a length below 6, and otherwise sets each flag exactly in its own case; the flag for a bug in the check itself is never set |

## Left out

- Sockets, opening files, creating directories and messages on stderr: the model starts from the reports, the bytes of a file, or a line.
- Failing allocations and the freeing of memory; array sizes are kept. Whether `realloc` to size 0 returns a null pointer is a parameter of `DeleteRouter`.
- `printEdges`: one line of output for each pair of nodes, read off the distances and routes.
- The UDP target of a forwarded packet: the code looks up the next hop but sends to the port of the destination, so the walk by lookups is not a claim about where packets travel.
- What `print` and `exist_route` write to the output; of `printRouter` only how it reads the modification number is modelled.
- RouterTable.RouterArray.ExistsRoute: when a walk leads to the target and another to a missing router, the order of the links decides whether the search answers or fails, and the contract allows both.
- Splitting command lines and node arguments into words; a line that cannot be split counts as an unknown command.
- The test for the QUIT line in `prepareAndSendPackets`.
- The order of rows within a table, and of edges among the invalid ones: the model says which are there and that none is there twice.
- RouterFile.ReadBinaryFile: on failure the routers read so far are not described, and neither are the bytes already written when a write fails.
- RouterFile.ReadRouter: for a length byte of 0 the code passes a negative length, as a very large one, to fread; the model has that read fail, and does not model bytes stored past the end of the empty buffer before it does.
- Packets.PreparePacket: numbers too large for atoi, whose result C leaves undefined, are taken at their value.
