# GHS fragment merging, modelled in Dafny

This project models the three pieces of a small Python implementation of Gallager–Humblet–Spira style minimum spanning tree fragments. It also proves what each piece does.

- **`base_ghs.dfy`, module `BaseGHS`: the sequential merger of `src/base/GHS.py`.**
  - `Node` and `GHS` are classes whose fields change in place, as in the source.
  - `Node.FindMoe` scans a node's neighbour list for the cheapest edge into another fragment.
  - `GHS.MergeFragments` relabels the fragment with the larger id to the smaller id.
  - `GHS.Run` repeats rounds until one merges nothing.
  - The methods are proved against a value-level model: fragment ids as a sequence and a merge as a relabelling. Lemmas about that model prove:
    - every fragment id stays the smallest node id among its members;
    - every effective merge removes exactly one fragment id, so `Run` terminates;
    - ids only decrease;
    - fragments never grow beyond the connected components of the graph;
    - on exit no edge joins two fragments.
- **`ghs_scenarios.dfy`, module `GHSScenarios`: the graphs of `src/base/test_GHS.py`.**
  - Each graph is built with the object model and run to the end.
  - The fragment ids each test expects are proved from `Run`'s contract.
- **`network.dfy`, module `Network`: the per-node message handler of `src/network/DistributedNode.py`.**
  - `Receive` is the handler as a pure transition: (state, message) to (new state, messages sent, success).
  - `DistributedNode.HandleMessage` is proved to perform exactly that transition on a node object. Sends are appended to the node's `outbox`.
  - Lemmas state the behaviour of each message type. As written, the `MERGE_REQUEST` and `MERGE_CONFIRMATION` messages that nodes build carry no fragment id, so every receiver fails on them (`BuiltMergesFail`).
  - The tags `find_moe` and the per-node `check_termination` use are lower case, so no handler branch matches them (`UnknownTypesIgnored`, `MoeRequestsIgnored`).
  - The module-level `check_termination` is modelled as a loop over node objects.
- **`p2p.dfy`, module `P2P`: the text-message handlers of the libp2p variant, `src/Node.py`.**
  - Python's `str.split`, pair unpacking and `int` are modelled exactly, except where noted under "Left out". `int` refuses numerals of more than 4300 digits, Python's default `int_max_str_digits`.
  - Each is paired with an inverse: `Join` and `Format` for splitting, `FormatInt` for `int`. Round-trip lemmas connect each pair.
  - `Process` is `process_message` as a transition, and `Node.ProcessMessage` is proved to perform it on a node object.

Node ids in `BaseGHS` and `Network` are integers. The source compares ids only with `==`, `!=`, `min` and `max` (`<` is applied to weights alone, src/base/GHS.py:23), so any totally ordered id type behaves the same way. In `GHSScenarios` the test names A to I become 1 to 9, which keeps their order. The chain's `N<i>` becomes `i`. That keeps the names' order only up to ten nodes, since `'N10' < 'N2'` as text. The chain's outcome does not depend on it: `N0` is the smallest name for every length, as `0` is the smallest number, so both end in the first node's fragment.

Ids in `P2P` are either text or Python integers (`Id`). The constructor takes whatever its caller passes, and the libp2p test passes integers. Ids read from messages are always text. Python's `==` between an integer and a string is false, so a node whose fragment id is a number never finds a `Test` sender in its own fragment. A `Merge` message makes the fragment id text.

`wrappers.dfy` holds the `Option` type the other modules share.

## Model

| member | source | states |
|---|---|---|
| `BaseGHS.Node.constructor` | src/base/GHS.py:2-8 | A new node is a fragment of its own: its fragment id is its id. It has no neighbours and no MOE. |
| `BaseGHS.Node.AddNeighbor` | src/base/GHS.py:10-11 | The edge is appended to the end of the neighbour list. |
| `BaseGHS.Node.FindMoe` | src/base/GHS.py:13-31 | The result is `None` iff every neighbour shares the node's fragment. Otherwise it is the first cheapest edge into another fragment: ties go to the earliest entry. `moe` is written only when an edge is found. |
| `BaseGHS.CheapestIsFirstMinimum` | src/base/GHS.py:20-24 | The strict-`<` scan finds nothing exactly when no edge leaves the fragment. Otherwise it finds the first position whose outgoing weight is minimal. |
| `BaseGHS.Cheapest` | src/base/GHS.py:20-24 | The scan's accumulator after reading the edges left to right. Whatever it holds is one of the edges, and that edge leads into another fragment. |
| `BaseGHS.Relabel` | src/base/GHS.py:54-56 | Every node in the old fragment takes the new id. Afterwards no position holds the old id unless it equals the new one, and positions outside the old fragment are untouched. |
| `BaseGHS.Merge` | src/base/GHS.py:46-56 | After merging at positions `i` and `j`, both carry `min` of their two fragment ids. No id grows. Only ids equal to the `max` change. |
| `BaseGHS.SingletonsAreCanonical` | src/base/GHS.py:2-4 | Fresh nodes, each its own fragment, satisfy the canonical-minimum rule. |
| `BaseGHS.MergeKeepsCanonical` | src/base/GHS.py:47-56 | A merge keeps every fragment id equal to the smallest node id among the fragment's members. |
| `BaseGHS.MergeDropsOneFragment` | src/base/GHS.py:46-56 | A merge of two different fragments reduces the number of distinct fragment ids by exactly one. |
| `BaseGHS.MergeStaysWithin` | src/base/GHS.py:38-56 | A merge across an edge inside one connected component keeps every fragment inside one component. |
| `BaseGHS.MergeAcrossLinkKeeps` | src/base/GHS.py:38-56 | A merge across a link keeps everything a run preserves: ids only decrease, canonical minima, confinement to components. |
| `BaseGHS.OneFragmentTakesSmallestId` | src/base/GHS.py:47-56 | When all nodes share one canonical fragment, its id is the smallest node id. |
| `BaseGHS.MergeAll` | src/base/GHS.py:63-80 | A sequence of merges keeps the number of nodes. |
| `BaseGHS.MergesAcrossLinksKeep` | src/base/GHS.py:63-84 | Any sequence of merges across links preserves what `Kept` records, relative to the ids at the start. |
| `BaseGHS.SingletonsStayCanonical` | src/base/GHS.py:61-84 | A run that started from fresh nodes ends with canonical fragment ids. |
| `BaseGHS.GHS.constructor` | src/base/GHS.py:34-36 | The merger holds the given node list. |
| `BaseGHS.GHS.MergeFragments` | src/base/GHS.py:38-59 | If `node2` is in `node1`'s neighbour list and their fragments differ, every listed node with the larger id takes the smaller. Otherwise no fragment id changes. |
| `BaseGHS.GHS.Run` | src/base/GHS.py:61-84 | The loop terminates. On exit, no listed node has a neighbour in another fragment, and every MOE is `None`. Relative to the ids at entry: ids only decrease, minima stay canonical, fragments stay inside components. |
| `BaseGHS.GHS.NoCrossingAtNodes` | src/base/GHS.py:61-84 | In a closed node list, no crossing link means no neighbour of a listed node is in another fragment. |
| `BaseGHS.GHS.Round` | src/base/GHS.py:64-84 | One round either removes at least one fragment or changes nothing and leaves no crossing link. It ends with every MOE cleared. |
| `BaseGHS.GHS.MergeRound` | src/base/GHS.py:68-80 | Step 1 of a round. Each merge is recorded as one across a link. `any_merge` holds exactly when some fragment was removed. |
| `BaseGHS.GHS.MergeAt` | src/base/GHS.py:68-80 | One node's turn: either a merge across a link between different fragments, or no change and every link from that node stays inside its fragment. |
| `BaseGHS.GHS.ClearMoes` | src/base/GHS.py:83-84 | Step 2 of a round: every MOE becomes `None`, and fragment ids and neighbours are untouched. |
| `GHSScenarios.BuildSimpleGraph` | src/base/test_GHS.py:8-22 | Builds the four-node test graph, with each edge listed at both ends in the test's order. |
| `GHSScenarios.SimpleGraphOutcome` | src/base/test_GHS.py:44-52 | The outcome `Run` guarantees for the four-node graph is a single fragment with A's id. |
| `GHSScenarios.SimpleGraph` | src/base/test_GHS.py:44-52 | Running the four-node graph puts every node in A's fragment. |
| `GHSScenarios.BuildDisconnectedGraph` | src/base/test_GHS.py:25-28 | Builds E and F with no edges. |
| `GHSScenarios.DisconnectedGraphOutcome` | src/base/test_GHS.py:54-62 | Without links, the outcome `Run` guarantees keeps both nodes in their own fragments. |
| `GHSScenarios.DisconnectedGraph` | src/base/test_GHS.py:54-62 | After the run, E and F keep their own, different ids. |
| `GHSScenarios.BuildTriangleGraph` | src/base/test_GHS.py:31-42 | Builds the triangle G, H, I with the test's weights. |
| `GHSScenarios.TriangleGraphOutcome` | src/base/test_GHS.py:66-74 | The outcome `Run` guarantees for the triangle is a single fragment with G's id. |
| `GHSScenarios.TriangleGraph` | src/base/test_GHS.py:66-74 | Running the triangle puts every node in G's fragment. |
| `GHSScenarios.BuildChain` | src/base/test_GHS.py:78-84 | Builds a chain of `n` fresh nodes with ids `0 .. n - 1`. Node `k`'s list is exactly the edge back to `k - 1`, then the edge on to `k + 1`, each where that node exists; the edge between `i` and `i + 1` weighs `i + 1`. |
| `GHSScenarios.LinkChain` | src/base/test_GHS.py:82-84 | Adding each link at both ends, in order, leaves every node with exactly the chain's edges. |
| `GHSScenarios.ChainLinks` | src/base/test_GHS.py:82-84 | The chain's neighbour lists link every position to the next one. |
| `GHSScenarios.NewChainRun` | src/base/test_GHS.py:78-86 | A merger over a fresh chain starts with every node its own fragment, a closed node list and a link between each pair of consecutive positions. |
| `GHSScenarios.ChainOutcome` | src/base/test_GHS.py:76-92 | The outcome `Run` guarantees for a chain is a single fragment with the first node's id. |
| `GHSScenarios.ChainGraph` | src/base/test_GHS.py:76-92 | Running a chain of any length, 10 in the test, puts every node in the first node's fragment. |
| `Network.Broadcast` | src/network/DistributedNode.py:107-113 | One copy of the message per neighbour, in neighbour-list order. |
| `Network.BroadcastOncePerNeighbor` | src/network/DistributedNode.py:107-113 | With the distinct keys of a neighbour table, each neighbour gets exactly one copy, and nobody else gets one. |
| `Network.Reply` | src/network/DistributedNode.py:115-117 | Sending never changes the fragment id or the flag. It succeeds iff the step so far succeeded and the addressee is a neighbour, and it keeps everything sent before. |
| `Network.Adopt` | src/network/DistributedNode.py:79-102 | Taking a new fragment id sets it and the flag, and sends one FRAGMENT_UPDATE carrying the new id to each neighbour, in neighbour-list order. |
| `Network.Receive` | src/network/DistributedNode.py:56-102 | Everything the handler sends goes to a neighbour, because `send_message` raises on any other id. |
| `Network.MoeRequestAnswers` | src/network/DistributedNode.py:63-69 | MOE_REQUEST sends exactly one MOE_RESPONSE with the current fragment id to the sender and changes no state. A sender that is not a neighbour fails with nothing sent. |
| `Network.MoeResponseRequestsMerge` | src/network/DistributedNode.py:71-77 | MOE_RESPONSE never changes state. Without a fragment id it fails. Otherwise it sends one MERGE_REQUEST, without a fragment id, iff the reported id differs from the node's own. |
| `Network.MergeTakesSmallerId` | src/network/DistributedNode.py:79-95 | A merge message with a different fragment id sets `fragment_id := min(fragment_id, sender_id)`, sets the flag and floods FRAGMENT_UPDATE. MERGE_REQUEST then confirms to the sender; if the sender is not a neighbour it fails after the flood. |
| `Network.MergeWithSameIdKeepsState` | src/network/DistributedNode.py:79-95 | A merge message with the node's own fragment id changes nothing. MERGE_REQUEST still confirms. |
| `Network.BuiltMergesFail` | src/network/DistributedNode.py:73-95 | Every MERGE_REQUEST and MERGE_CONFIRMATION the handler sends, delivered to any node, fails at the fragment-id lookup: no change, nothing sent. |
| `Network.FragmentUpdateAdopts` | src/network/DistributedNode.py:97-102 | FRAGMENT_UPDATE adopts any different id, smaller or larger, sets the flag and re-floods. A duplicate update changes nothing and sends nothing. |
| `Network.UnknownTypesIgnored` | src/network/DistributedNode.py:56-102 | Types no branch matches, such as `TEST` or the lower-case tags, change nothing and send nothing. |
| `Network.MoeRequestsIgnored` | src/network/DistributedNode.py:129-139 | Every request `find_moe` sends carries the lower-case tag, which every receiver ignores. |
| `Network.DistributedNode.constructor` | src/network/DistributedNode.py:14-20 | A new node has `fragment_id == node_id`, `moe` None and `fragment_changed` set. |
| `Network.DistributedNode.SendMessage` | src/network/DistributedNode.py:115-127 | A message to a neighbour is appended to the outbox. Any other id fails, with nothing sent. |
| `Network.DistributedNode.SendToAll` | src/network/DistributedNode.py:107-113 | The send loop shared by propagation, MOE requests and termination checks: the outbox grows by exactly one copy per neighbour, in neighbour-list order. |
| `Network.DistributedNode.PropagateFragmentChange` | src/network/DistributedNode.py:104-113 | Appends one FRAGMENT_UPDATE with the current fragment id per neighbour. |
| `Network.DistributedNode.HandleMessage` | src/network/DistributedNode.py:56-102 | The node's new fragment id, flag, outbox and success are exactly the transition `Receive`. |
| `Network.DistributedNode.FindMoe` | src/network/DistributedNode.py:129-139 | If `moe` is None or the flag is set, sends one request to every neighbour and clears the flag. Otherwise it changes nothing. |
| `Network.DistributedNode.CheckTermination` | src/network/DistributedNode.py:143-152 | Sends its fragment id to every neighbour under the lower-case termination tag. |
| `Network.CheckTermination` | src/network/DistributedNode.py:155-181 | Returns after one pass. Every node's fragment id becomes the first node's original id, and every node has sent its termination check. An empty list returns at once. |
| `Network.Overwrite` | src/network/DistributedNode.py:162-168 | The first loop remembers the first node's fragment id and writes it into every node, touching nothing else. |
| `P2P.Split` | src/Node.py:42 | `str.split` with a one-character separator returns at least one piece. |
| `P2P.SplitCount` | src/Node.py:42 | There is one piece more than there are separators. |
| `P2P.JoinSplit` | src/Node.py:42 | Joining the pieces of a split restores the text. |
| `P2P.SplitJoin` | src/Node.py:42 | Splitting the join of pieces that are free of the separator gives the pieces back. |
| `P2P.SplitPiecesFree` | src/Node.py:42 | No piece of a split holds the separator. |
| `P2P.SplitOnce` | src/Node.py:42 | Unpacking a split into two names succeeds iff the separator occurs exactly once. |
| `P2P.SplitOnceOfPair` | src/Node.py:72 | `a,b` with neither part holding the separator unpacks into `a` and `b`. |
| `P2P.ParseInt` | src/Node.py:81 | Python's `int` on text: white space around an optional sign and from one to 4300 digits; anything else raises. A negative result needs a minus sign in the text. |
| `P2P.ParseSigned` | src/Node.py:81 | `int` once the white space is gone: a negative result comes from a leading minus sign. |
| `P2P.ParseFormat` | src/Node.py:81 | `int` reads back every formatted integer, negative ones included, when it has at most 4300 digits, and refuses it otherwise. |
| `P2P.ParseNumeral` | src/Node.py:81 | `int` reads a run of digits, with or without a minus sign, as its value when there are at most 4300 digits, and raises otherwise. |
| `P2P.SignedNumeral` | src/Node.py:81 | The same, for text without surrounding white space. |
| `P2P.TestData` | src/Node.py:70-76 | `handle_test_message` as a transition: it raises unless the data holds exactly one `,`, and otherwise leaves the state as it is. |
| `P2P.ReportData` | src/Node.py:78-84 | `handle_report_message` as a transition: accepted data holds exactly one `,`; the fragment id is kept, a minimum is known afterwards, and a known minimum never rises. |
| `P2P.MergeData` | src/Node.py:86-90 | `handle_merge_message` as a transition: accepted iff the data holds exactly one `,`; the new fragment id is text without a comma, and the minimum is kept. |
| `P2P.Process` | src/Node.py:40-48 | `process_message` as a transition: accepted messages hold exactly one `:`, only a `Merge` changes the fragment id, and only a `Report` changes the minimum. |
| `P2P.Format` | src/Node.py:96 | The text `kind:sender,field`: a colon right after the type and a comma right after the sender. |
| `P2P.MessageFields` | src/Node.py:42-48 | A message `kind:sender,field`, with no separator inside its fields, splits back into those three fields. |
| `P2P.OtherTypesIgnored` | src/Node.py:43-48 | A type other than `Test`, `Report` and `Merge` changes nothing. |
| `P2P.TestReadOnly` | src/Node.py:70-76 | A `Test` message never changes state. It is refused unless its data holds exactly one `,` and no `:`. |
| `P2P.ReportLowers` | src/Node.py:80-83 | A report with weight `w` sets the minimum to `w` when there was none, and otherwise to the smaller of the two. Nothing else changes. |
| `P2P.ReportKeepsMinimum` | src/Node.py:78-84 | A `Report` message with a formatted weight of at most 4300 digits is accepted, keeps the running minimum, and never raises the minimum. |
| `P2P.ReportMessage` | src/Node.py:40-48 | A well-formed `Report` message is handled by `handle_report_message` on its data, and that data splits into sender and weight. |
| `P2P.ReportRefusesLongWeight` | src/Node.py:80-81 | A `Report` whose weight has more than 4300 digits is refused, because `int` raises. |
| `P2P.MergeIdempotent` | src/Node.py:86-89 | Applying the same `Merge` message twice equals applying it once. |
| `P2P.MergeOverwrites` | src/Node.py:86-89 | `Merge` sets the fragment id to the text carried, unconditionally, and touches nothing else. |
| `P2P.Announce` | src/Node.py:95-96 | One message per neighbour, in neighbour-list order. |
| `P2P.AnnouncementAccepted` | src/Node.py:92-96 | If the ids, as the f-string shows them, hold no separator, a node's `Test` announcement is accepted by every receiver and changes nothing there. |
| `P2P.Node.constructor` | src/Node.py:6-13 | A new node has `fragment_id == leader == node_id`, no minimum outgoing edge and no neighbours. |
| `P2P.Node.HandleTestMessage` | src/Node.py:70-76 | Fails unless the data holds exactly one `,`. It reports whether the node's fragment id equals the text received, which is never the case for a numeric fragment id, and changes nothing. |
| `P2P.Node.HandleReportMessage` | src/Node.py:78-84 | The new minimum outgoing edge and the success flag are exactly the transition `ReportData`. |
| `P2P.Node.HandleMergeMessage` | src/Node.py:86-90 | The new fragment id and the success flag are exactly the transition `MergeData`. |
| `P2P.Node.ProcessMessage` | src/Node.py:40-48 | The new fields and the success flag are exactly the transition `Process`. A failure leaves the fields unchanged. |
| `P2P.Node.RunGhsProtocol` | src/Node.py:92-96 | Appends one `Test:<node_id>,<fragment_id>` per neighbour, in neighbour-list order, with each id shown as the f-string shows it. |

## Left out

- `BaseGHS.GHS.Run` requires every neighbour of a listed node to be in the list (`Closed`). Without that, the source's loop can run forever. A node can pick an unlisted neighbour with a larger fragment id, and the merge then relabels nothing but still counts as a merge.
- Debug output: all `print` calls in the three files and the demo at src/base/GHS.py:86-112.
- Unused node fields: `parent` and `children` of src/base/GHS.py:7-8 are never used. The `GHS.fragments` dictionary (src/base/GHS.py:36) is built but never read.
- Asyncio TCP transport of the distributed variant: `start`, `listen`, `handle_connection` and the socket part of `send_message` (src/network/DistributedNode.py:22-54, 118-127). Sends are appends to `outbox`, and socket errors are swallowed in the source, so they do not appear.
- Neighbour addresses and ports, and the node's own `port`: only the keys of the neighbour table are kept.
- JSON encoding and decoding (src/network/DistributedNode.py:47, 121): library calls.
- `Network.Message` always has a type and a sender. Incoming dictionaries missing either, whose lookup would raise, are not modelled. Neither are JSON values of other types than those modelled.
- Concurrency: interleaving between nodes, `asyncio.gather`, and the `asyncio.sleep` between passes of `check_termination`, which the single pass never reaches. `main` and `simple_test` are demos.
- `Network.CheckTermination` requires the list to hold distinct node objects, as the source's callers build it. The fragment-id result holds for any list, but the per-node outbox statement needs distinct objects.
- `Network.DistributedNode` `moe` is never assigned after construction in the source. Its element type is therefore arbitrary, here `int`.
- Edge weights in the distributed variant: the source never sends or compares them.
- libp2p host of src/Node.py: `start_node`, `handle_stream`, `send_message`, `connect_to_peer`, the `host` and `peers` fields (src/Node.py:15-68). Sends are appends to `outbox`.
- Exception propagation out of `handle_stream` in src/Node.py: a failed `process_message` is reported as `ok == false`, with state unchanged, because every raise comes before any assignment.
- `P2P.ParseInt` fixes the digit limit at Python's default of 4300. The limit can be changed at run time (`sys.set_int_max_str_digits`), and Python versions released before the limit existed have none.
- `P2P.Node.RunGhsProtocol` formats integer ids of any size (`Show`). Python's `str` also refuses integers of more than 4300 digits, so such an id would make the source raise.
- `P2P.ParseInt` covers ASCII text: white space, an optional sign and decimal digits. Python's `int` also accepts underscores between digits, non-ASCII digits and non-ASCII white space; the model refuses those.
- The `leader` field of src/Node.py is only set by the constructor.
