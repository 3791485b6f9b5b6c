# DSR-UU in Dafny

DSR-UU is an implementation of Dynamic Source Routing (draft-ietf-manet-dsr-10) for the Linux
kernel and the ns-2 simulator.  This project models its hard parts and proves what they are
for: the protocol as a network of nodes, the link cache and its shortest-path search, the
source-route algebra and forwarding, the request table and route discovery, route maintenance
with retransmission and salvaging, the options down to their bytes, the linked lists and
tables underneath, and the send and log buffers.

`dafny verify dfyconfig.toml` checks everything.

| module | source | contents |
|---|---|---|
| `Routes`, `Forwarding` | dsr-srt.c | route operations, the segments-left step, route shortening |
| `Paths`, `Dijkstra`, `LinkCache` | link-cache.c | graphs and shortest paths, and the cache that refines them |
| `Walks`, `Network` | dsr-rreq.c, dsr-rrep.c, dsr-srt.c, dsr-rerr.c, maint-buf.c | N nodes, messages in flight, every run |
| `Handlers` | dsr-rreq.c, dsr-rrep.c, dsr-srt.c, dsr-rerr.c, maint-buf.c | what each node sends, learns and forgets |
| `Discovery` | dsr-rreq.c, dsr-rrep.c | runs that find every route and get packets and errors through |
| `Recency`, `RequestTable` | dsr-rreq.c | what the request table has to remember, and the table |
| `ShortRoutes`, `Acks`, `MaintEntries`, `MaintWork`, `MaintState`, `MaintTimer`, `MaintBuf`, `LateTimer` | maint-buf.c, neigh.c | routes that fit their field, request numbers, the buffer's order, a measure of the work left, when the timer goes off, the buffer, a run with a late timer |
| `Rtt` | neigh.c | the round-trip time estimator |
| `Bytes`, `Options`, `Codec`, `Packets`, `Senders`, `Built`, `Rewriting`, `Salvage` | dsr-opt.c, dsr-pkt.c and the senders | options as bytes: writing, walking, rewriting |
| `Tables` | list.h, tbl.h | the pointer ring and the bounded table over it, which the other modules take as the sequences they are proved to be |
| `SendBuf` | send-buf.c, dsr-io.c | packets waiting for a route |
| `DebugLog` | debug.c | the log ring under interleaving |

A handler or timer call is one atomic step, as in the ns-2 build, where the locks are empty.
There a transmission inside a salvage puts the packet straight back into the maintenance
buffer; `MaintBuf` models exactly that.  Time is a parameter, and everything that leaves a
node is an output.  In `Network` a message may be heard by any neighbour, any number of times,
late or never; `found` and `first` in its steps stand for the answer of the cache search and
for the word the program reads as the first address of the old route.

Where the program and its documents differ the program is followed:

* The destination of a route that overhears an intermediate hop sends no gratuitous reply,
  unlike section 3.4.3 of draft-ietf-manet-dsr-10 (`Forwarding.GratReplySentWhen`,
  `Forwarding.DestinationStaysSilent`).
* The capped doubling of the request time-out holds from the first request on exactly when
  NonpropRequestTimeout is within MaxRequestPeriod (`RequestTable.BackoffDoubles`).
* Ids of acknowledgement requests are compared without regard to wrap-around; this is right
  exactly as long as no packet got a number past 16 bits (`Acks.IdsOrderedIff`), which 2^16
  requests to one neighbour break (`Acks.ManyRequests`).
* When the packet that carried a request found the buffer full, its acknowledgement is timed
  from an earlier packet (`MaintEntries.SampleIsCarriers`, `MaintBuf.SampleOfAnother`).
* The timer that repeats requests is set for the first packet that awaits an acknowledgement, but
  not while it runs.  While a link is given up it may be set for a packet that is then taken out,
  and stay so although another packet is due.  This takes a due packet behind one that is not, which
  estimated time-outs allow and a configured one does not (`MaintTimer.OnTimeIff`,
  `MaintTimer.SteadyOnTime`, `LateTimer.Late`).
* A PAD1 moves the option cursor by two bytes but the byte count by one
  (`Options.OnePad`).
* An alternative route of more than 63 addresses overflows the segments-left field, and a
  salvaged packet may be buffered for the lost neighbour again, the same packet over the same
  links, so that salvaging does not end (`ShortRoutes.TruncatedHop`,
  `MaintState.SalvagedAgain`).
* A full link table makes adding a link break the node counts (`LinkCache.Cache.LinkAdd`,
  `LinkCache.FullTable`).

## Model

| member | source | states |
|---|---|---|
| `Routes.NextHop` | dsr-srt.c:28-39 | the node behind the current position on the path, or the destination when nothing is left |
| `Routes.PrevHop` | dsr-srt.c:41-52 | the node the packet came from, for the count the receiver passes |
| `Routes.FindAddr` | dsr-srt.c:54-70 | found exactly when the address is among the hops still to be visited |
| `Routes.NewRev` | dsr-srt.c:94-118 | the loop yields the route whose path is the reversed path |
| `Routes.ReverseTwice` | dsr-srt.c:94-118 | reversing twice gives the route back |
| `Routes.ReverseSimple` | dsr-srt.c:94-118 | reversal keeps a route free of loops |
| `Routes.NewSplit` | dsr-srt.c:121-156 | the loop yields the prefix of the path up to the first occurrence of the address, nothing exactly when it is not an intermediate hop |
| `Routes.SplitRev` | dsr-srt.c:158-172 | nothing exactly when the address is not an intermediate hop; otherwise a route from it back to the source |
| `Routes.SplitRevPath` | dsr-srt.c:158-172 | that route is the path up to the first occurrence of the address, backwards |
| `Routes.NewShortcut` | dsr-srt.c:174-226 | the loops yield the path without the nodes strictly between the two given ones; room is made for exactly the hops copied if and only if the first is on the route and the second behind it, or there is nothing to copy |
| `Routes.CutSimple` | dsr-srt.c:174-226 | cutting a loop-free route leaves it loop free, shorter by the hops between, and with the same ends |
| `Routes.Concatenate` | dsr-srt.c:228-259 | the two paths joined at the common node |
| `Routes.CheckDuplicate` | dsr-srt.c:262-297 | a duplicate is reported exactly when some node, ends included, is on the route twice |
| `Forwarding.ReceivedIsSent` | dsr-srt.c:298-319 | the route rebuilt from the option is the one sent, exactly up to 63 addresses |
| `Forwarding.TruncatedLength` | dsr-srt.c:403-410 | the receiver's division undoes the two extra bytes of the length |
| `Forwarding.StopsFollowPath` | dsr-srt.c:415-515 | from any hop on, a packet visits the rest of its path in order and arrives with no segments left |
| `Forwarding.RunFollowsPath` | dsr-srt.c:391-515 | a packet visits exactly the nodes of its route, each time entered from the node before, exactly when the route has at most 63 addresses (section 8.1.5 of draft-ietf-manet-dsr-10) |
| `Forwarding.ShortenedIsShortcut` | dsr-srt.c:461-496 | the overhearing node's shortcut is the route without the hops strictly between the sender and itself |
| `Forwarding.ShortenedFacts` | dsr-srt.c:461-496 | the shortened route is loop free, strictly shorter and keeps its ends (section 3.4.3) |
| `Forwarding.GratReplyReturns` | dsr-srt.c:461-496 | a gratuitous reply reports that route and travels on the exact reverse of its prefix up to the node |
| `Forwarding.GratReplySentWhen` | dsr-srt.c:461-496 | a reply is sent if and only if the node is further along the route than the intended next hop and, if it is the destination, heard the source itself |
| `Forwarding.DestinationStaysSilent` | dsr-srt.c:461-496 | a concrete route whose destination sees a shortcut and sends nothing |
| `Paths.LabelsAreExact` | link-cache.c:421-457 | labels that no link can improve are least path costs, infinite exactly for unreachable nodes, and the predecessors form a cheapest path of `hops` links |
| `Paths.LabelIsLowerBound` | link-cache.c:145-163 | no path costs less than a settled label |
| `Paths.AddStepsLinks` | link-cache.c:548-588 | adding a route adds exactly its hops, both ways when it is bidirectional |
| `Paths.AddedRouteIsFound` | link-cache.c:548-588 | after adding a k-hop route between different nodes a search finds one of at most k hops |
| `Paths.NoRouteOverDeletedLink` | link-cache.c:356-386 | no route found after a link is deleted starts over it |
| `Dijkstra.InitInv` | link-cache.c:165-183 | the initial labels satisfy the search invariant |
| `Dijkstra.SettleInv` | link-cache.c:394-407 | taking out a node of least cost settles it |
| `Dijkstra.RelaxInv` | link-cache.c:145-163 | relaxing a link keeps the invariant |
| `Dijkstra.RoundKeeps` | link-cache.c:421-457 | one round keeps the invariant and settles one more node |
| `Dijkstra.FinishedIsSettled` | link-cache.c:421-457 | when no reachable node is left all labels are settled |
| `LinkCache.Cache.NeverFull` | link-cache.c:296-341 | with at most 100 links the node table of 500 is never full |
| `LinkCache.Cache.NodesAreEndpoints` | link-cache.c:84-94 | the nodes are exactly the ends of links |
| `LinkCache.Cache.constructor` | link-cache.c:710-741 | the empty cache is valid |
| `LinkCache.Cache.Flush` | link-cache.c:595-613 | afterwards no link and no node is left |
| `LinkCache.Cache.FindLink` | link-cache.c:248-253 | the one link of an ordered pair, if any |
| `LinkCache.Cache.GetNode` | link-cache.c:296-341 | the node of an address, made when missing |
| `LinkCache.Cache.LinkTblAdd` | link-cache.c:255-293 | the pair's cost is set; counts rise only for a new link |
| `LinkCache.Cache.LinkAdd` | link-cache.c:296-353 | the graph gains the link, and the counts stay right if and only if the link existed or there was room; otherwise no link changes |
| `LinkCache.FullTable` | link-cache.c:255-293 | a run that fails: 100 links along a row fill the table, and one more leaves the counts wrong |
| `LinkCache.Cache.LinkDelAt` | link-cache.c:84-94 | one link goes, the counts of its ends fall, and ends without links go too, self-loops counting twice |
| `LinkCache.Cache.LinkDel` | link-cache.c:356-386 | both directions go, the second only if the first was there |
| `LinkCache.Cache.InitSingleSource` | link-cache.c:165-183 | all labels infinite but the source's |
| `LinkCache.Cache.FindLowest` | link-cache.c:134-143 | a node of least finite cost still in the table, if any |
| `LinkCache.Cache.Relax` | link-cache.c:145-163 | every link from the node is relaxed once, in table order |
| `LinkCache.Cache.MoveBack` | link-cache.c:410-419 | all nodes return to the table |
| `LinkCache.Cache.Dijkstra` | link-cache.c:421-457 | every node's cost, hops and predecessor are settled, and the table holds the same nodes as before |
| `LinkCache.Cache.ReadBack` | link-cache.c:514-540 | following predecessors fills every address slot exactly once, ending at the source |
| `LinkCache.Cache.SrtFind` | link-cache.c:459-546 | nothing exactly when source and destination are the same or not connected; otherwise a cheapest path over cached links without repeated nodes |
| `LinkCache.Cache.SrtAdd` | link-cache.c:548-588 | the graph gains exactly the route's hops and the cache stays valid |
| `Walks.WalkReverse` | dsr-srt.c:94-118 | on a symmetric topology the reverse of a real walk is real |
| `Walks.WalkCut` | dsr-srt.c:174-226 | a real walk cut over a real link is real |
| `Network.RreqSound` | dsr-rreq.c:503-660 | handling a request learns real links only and answers or forwards with real, loop-free routes |
| `Network.RoutedSound` | dsr-srt.c:391-515 | handling or overhearing a source-routed packet learns real links only and forwards or reports real routes |
| `Network.ReportsSound` | dsr-rrep.c:327-410 | links learnt from replies are real |
| `Network.LearnRouteSound` | dsr-srt.c:427-457 | links learnt from source routes are real |
| `Network.GratSound` | dsr-srt.c:461-496 | gratuitous replies report real loop-free routes and travel back on real ones |
| `Network.SalvageSound` | maint-buf.c:188-348 | a salvaged packet continues on a real loop-free route from this node |
| `Network.StepSound` | dsr-rreq.c:503-660 | every step of every node keeps the network sound |
| `Network.RunSound` | dsr-rreq.c:536-557 | in every state of every run, whatever is lost, every cached link and every hop of every route in flight is a real link |
| `Network.RunLoopFree` | dsr-rreq.c:570-660 | in every run requests never repeat a node nor list their target, and all routes sent or reported between different nodes are loop free |
| `Network.RunFits` | dsr-srt.c:298-319 | with at most 63 nodes no run overflows the length and segments-left fields |
| `Network.RunDeliverable` | dsr-srt.c:417-418 | in every run the hop a packet is meant for, and the one it came from, are computed correctly |
| `Handlers.RreqSends` | dsr-rreq.c:570-660 | the target answers with the way the request came; another node not on the way yet answers exactly when it has a cached route that leads on without meeting the way, reporting the two joined, and otherwise passes the request on with its own address; nodes on the way are silent |
| `Handlers.RreqLearns` | dsr-rreq.c:547-557 | every node that hears a request learns exactly the links of the way back, whatever else it does |
| `Handlers.PassesOn` | dsr-srt.c:498-515 | the node a packet is meant for passes it to the next hop with one segment less until none is left, and sends nothing else |
| `Handlers.Overhears` | dsr-srt.c:461-499 | a node that overhears a packet sends one gratuitous reply, with the shortened route, exactly when that is enabled and the node is further along the route and, as the destination, heard the source; otherwise nothing |
| `Handlers.LearnsTravelled` | dsr-srt.c:421-457 | exactly the hops travelled are learnt from a source route, all of them at the destination, and the link back to the sender unless it was overheard; all other links keep their cost |
| `Handlers.LearnsReports` | dsr-rrep.c:327-410 | exactly the hops of the routes reported are learnt from replies; all other links keep their cost |
| `Handlers.ForgetsErrors` | dsr-rerr.c:206-234 | after the errors no link they report is cached, and all but these links and their reverses stay at their cost |
| `Handlers.OverheardLearns` | dsr-srt.c:427-457 | a node that overhears a packet learns the hops travelled and nothing else |
| `Handlers.MeantLearns` | dsr-srt.c:427-457 | the node a packet is meant for learns the hops travelled and the routes reported, and then forgets the links reported broken and no others but their reverses |
| `Handlers.SalvageSends` | maint-buf.c:188-348 | a packet is salvaged exactly when the maintenance buffer can reroute it, and goes on over that route with the alternative left |
| `Handlers.LocalSteps` | link-cache.c:356-386 | a flush leaves no route to anywhere, a lost link goes with its reverse and no other, and neither sends anything |
| `Discovery.SomeAnswer` | link-cache.c:459-546 | every search has an answer: where there is a path there is a cheapest one without loops |
| `Discovery.Travel` | dsr-srt.c:415-515 | from every position on a real route a packet can be forwarded to its destination, which then knows its route and what it reports |
| `Discovery.Ask` | dsr-rreq.c:503-660 | a request can move along a walk by one node, which answers or passes it on; with nothing cached only the target answers, with exactly the walk |
| `Discovery.Discoverable` | dsr-rreq.c:345-404 | from every state, whatever is cached, and along every loop-free walk, a discovery can end with a loop-free route to the end of the walk in the cache of its initiator |
| `Discovery.EveryWalkIsDiscovered` | dsr-rreq.c:503-660 | for every loop-free walk there is a run from the initial state in which a reply reporting exactly this walk reaches its first node, whose searches then find a route |
| `Discovery.EveryRunCanDeliver` | dsr-rrep.c:327-410 | in every state of every run, two nodes joined by a walk can go on so that the first discovers a route and a packet it sends gets through on a real loop-free route |
| `Discovery.ErrorGetsThrough` | dsr-rerr.c:63-234 | in every state of every run an error can be reported to any node a route is cached to, which then has none of the links reported |
| `Recency.UseIsRecent` | dsr-rreq.c:243-318 | moving the used entry last, and dropping the first when full, keeps exactly the most recently used addresses |
| `Recency.ByLastUseOrdered` | dsr-rreq.c:287-293 | the addresses are in the order of their last use |
| `Recency.ByLastUseMembers` | dsr-rreq.c:287-293 | exactly the addresses used are listed |
| `Recency.RememberedOnce` | dsr-rreq.c:529-534 | of the requests remembered, none was worked on twice |
| `RequestTable.Table.Add` | dsr-rreq.c:243-272 | a new idle entry at the end; the evicted one loses its timer |
| `RequestTable.Table.AddId` | dsr-rreq.c:274-320 | the table stays what its history asks for, with one request more; the initiator's entry goes to the end and keeps everything but its ids and time of use, its discovery and timer included, or a new idle one is made; no other entry changes and no timer but that of the evicted entry |
| `RequestTable.Table.Duplicate` | dsr-rreq.c:406-420 | true exactly when the request is among the last ones recorded since the initiator's entry was made |
| `RequestTable.HasId` | dsr-rreq.c:83-100 | the id search finds a request exactly when it is listed |
| `RequestTable.PushId` | dsr-rreq.c:302-315 | the ids kept are the last ones |
| `RequestTable.Table.Receive` | dsr-rreq.c:529-534 | a request is worked on exactly when it is not remembered, and then it is; its initiator's entry and all timers are as after AddId |
| `RequestTable.Table.Cancel` | dsr-rreq.c:322-343 | the discovery ends and only its timer goes; its entry is idle at the end of the table, otherwise as before |
| `RequestTable.Table.RouteDiscovery` | dsr-rreq.c:345-404 | a discovery starts, with one request and a timer, exactly when none is under way; no other timer changes but that of the evicted entry |
| `RequestTable.Table.Timeout` | dsr-rreq.c:156-204 | the next ring is sent, or after MaxRequestRexmt of them the discovery ends; its timer is set to the next time-out or goes, and no other changes |
| `RequestTable.Double` | dsr-rreq.c:183-191 | both values double within their limits |
| `RequestTable.TtlDoubles` | dsr-rreq.c:185-188 | after k expiries the time to live is min(2^k, 255) |
| `RequestTable.BackoffAfterFirst` | dsr-rreq.c:183-191 | after k >= 1 expiries the time-out is min(NonpropRequestTimeout * 2^k, MaxRequestPeriod) |
| `RequestTable.BackoffDoubles` | dsr-rreq.c:377-385 | that holds for all k if and only if the first time-out is within the cap |
| `Acks.SeqnoOrder` | neigh.c:103-114 | packets up to a request have numbers up to its own, later ones greater |
| `Acks.IdsOrderedIff` | maint-buf.c:62-86 | comparing 16-bit ids tells the order if and only if no packet was numbered past 16 bits |
| `Acks.FewRequests` | maint-buf.c:62-86 | in particular for fewer than 2^16 requests to the neighbour |
| `Acks.ManyRequests` | maint-buf.c:62-86 | an input that fails: of 2^16 requests to a neighbour the last is taken for older than the first |
| `MaintEntries.CumulativeAck` | maint-buf.c:62-86 | an acknowledgement removes exactly the packets for that neighbour up to the one that carried the request, and keeps the others in order |
| `MaintEntries.SampleOfCarrier` | maint-buf.c:67-74 | while the carrier is buffered the sample is its own, and none is taken if it was sent again |
| `MaintEntries.SampleOfFresh` | maint-buf.c:67-74 | any sample is of a packet sent once, at the latest the carrier |
| `MaintEntries.SampleIsCarriers` | maint-buf.c:67-74 | a sample that is taken is the carrier's own if and only if the carrier is buffered; otherwise it is that of an earlier packet |
| `MaintEntries.ReinsertedOk` | maint-buf.c:436-446 | sending the first packet again keeps the order the samples rest on |
| `MaintWork.RetriedIsLighter` | maint-buf.c:372-446 | a retransmission lowers the measure |
| `MaintWork.ResentIsLighter` | maint-buf.c:385-418 | so does starting again after a link is lost |
| `MaintWork.TotalShrinks` | link-cache.c:356-386 | losing links raises nothing |
| `MaintState.Reroute` | maint-buf.c:208-269 | a new route exactly when there is a source route and either its first word is the lost neighbour and the alternative is loop free, or this node is a hop and the way here joined with the alternative is loop free; it is that route |
| `MaintState.Onward` | maint-buf.c:234-337 | the same route exactly then; the next hop computed from six bits is the first of the alternative route if and only if the alternative has at most 63 addresses |
| `MaintState.Leave` | maint-buf.c:234-345 | a packet leaves exactly when there is an alternative route and the packet can be rerouted over it; then on the way it came and from here the alternative, or on the alternative alone at the source, by a neighbour the cache has a link to |
| `MaintState.NewRoutePath` | maint-buf.c:234-257 | the new route is the old path up to this node, at its first place on it, and then the alternative; at the source, where the lost neighbour is the first hop, the alternative alone |
| `MaintState.NewRouteRest` | maint-buf.c:234-269 | what is left of the new route from this node is exactly the alternative route, and so is the next hop |
| `MaintState.LongAlternative` | maint-buf.c:335-337 | over every loop-free alternative of 64 addresses a forwarded packet can be salvaged, and its next hop is its destination |
| `MaintState.SalvagedAgain` | maint-buf.c:405-418 | an input that fails: on a row of 66 nodes whose first lost the link to the last, the salvaged packet is sent to the lost neighbour and nowhere else, whatever the search answers, and losing the neighbour again changes nothing |
| `ShortRoutes.ShortAnswer` | dsr-srt.h:23-43 | where no loop-free path from the node has more than 63 nodes between its ends, the segments left of every answer fit six bits |
| `ShortRoutes.ShortIsExact` | maint-buf.c:201-206 | that condition says exactly that every search, whatever links were deleted before, answers with a route that fits |
| `ShortRoutes.FewNodesShort` | dsr-srt.h:23-43 | 65 nodes imply it |
| `ShortRoutes.TruncatedHop` | maint-buf.c:335-337 | the next hop from six bits is right if and only if at most 63 addresses are left |
| `ShortRoutes.LostAgain` | maint-buf.c:405-418 | on a row of 66 nodes without a link from the first to the last the search answers with the row, and six bits make the last node its next hop |
| `ShortRoutes.ChainAnswers` | link-cache.c:459-546 | where a path is all there is, a search between its ends answers with it and nothing else |
| `ShortRoutes.ShortFits` | maint-buf.c:201-206 | if no loop-free path is long, every answer fits whatever neighbours are lost |
| `ShortRoutes.FitsAfterDelete` | maint-buf.c:382-385 | if every answer fits whatever neighbours are lost, this stays so when one is |
| `MaintState.GrownTwice` | maint-buf.c:357-498 | steps in a row lose no packet and make none up: each is still buffered, was given up without a request, or was rerouted or dropped as the cache then said |
| `MaintState.DeleteAcked` | maint-buf.c:62-86 | the deletion loop yields what the acknowledgement leaves and the sample |
| `MaintState.Place` | maint-buf.c:127-137 | behind all packets that expire no later |
| `MaintBuf.Buffer.Timeout` | maint-buf.c:357-451 | terminates; the first packet's request is repeated or its error reported; a silent neighbour's link is then gone and none of its packets is left, even if salvaged packets come back; every packet buffered before still is, or was sent on over an answer of the cache at some time in between if one allowed it, and dropped otherwise, and it still is if it asked for an acknowledgement and its neighbour is alive; the timer is that of the first packet awaiting an acknowledgement unless this is due; estimates stay; nothing changes while a timer runs |
| `MaintBuf.Buffer.SetTimeout` | maint-buf.c:462-498 | terminates together with it and loses no packet either; afterwards the timer is the expiry of the first packet that awaits an acknowledgement unless this one is due, and it never is if packets were due in order; while the timer runs or nothing is due no packet is touched |
| `MaintBuf.Buffer.Retry` | maint-buf.c:436-446 | the request is repeated with its old id, and the packet, counted once more, takes its place by expiry |
| `MaintBuf.Buffer.Broken` | maint-buf.c:382-418 | the error is reported, the link deleted, and the packet and all others for the neighbour sent on or dropped as the cache then said |
| `MaintBuf.Buffer.SalvageAll` | maint-buf.c:405-418 | the loop ends, with no packet left for the neighbour; each was sent on or dropped as the cache then said |
| `MaintBuf.Buffer.Salvage` | maint-buf.c:188-348 | with the cache search's answer as alternative, the packet is sent exactly when it can be rerouted over it, on the way it came and then the alternative, by a live neighbour, and is numbered and buffered again for it; the measure grows by at most a fresh packet's |
| `MaintBuf.Buffer.SalvageOrDrop` | maint-buf.c:396-404 | a packet taken out is sent on that detour exactly when the search's answer allows it, and dropped otherwise |
| `MaintBuf.Buffer.Add` | maint-buf.c:501-563 | a packet for a known neighbour gets the next number, the request exactly after the hold-off time, and if there was room is buffered unless salvaged or dropped since; exactly its entry, with the time-out of the estimate or the configured one, is added while the timer runs or nothing is due |
| `MaintBuf.Buffer.Number` | maint-buf.c:515-549 | a request is carried exactly when the hold-off time is over; the neighbour's number rises then only; the time-out is the configured one or half the estimate in milliseconds |
| `MaintBuf.Buffer.Acknowledge` | maint-buf.c:589-619 | no packet for the neighbour up to the carrier is left; every other packet is still buffered or accounted for as by Timeout; a positive sample moves that neighbour's estimate and nothing else does; the timer is that of the first packet awaiting an acknowledgement unless this is due |
| `MaintBuf.Buffer.Delete` | maint-buf.c:603-612 | exactly the packets up to the carrier go; a positive sample moves the estimate of that neighbour to the smoothing of the old one by it, and nothing else changes |
| `MaintBuf.Buffer.DropWaiting` | maint-buf.c:566-586 | what is left for the neighbour was numbered since, and nothing if the neighbour is lost; every packet for another is still buffered or was salvaged or dropped since |
| `MaintBuf.Buffer.RouteError` | dsr-rerr.c:206-234 | the packets waiting for the destination are gone and all others accounted for; the cache is what it was without the reported link and the links to neighbours lost meanwhile |
| `MaintBuf.Buffer.Transmit` | maint-buf.c:501-563 | the packet is output last, numbered and buffered as by Add, with the id of its request; a timer on time stays so |
| `MaintBuf.Buffer.Fire` | maint-buf.c:350-355 | the same as Timeout, from the timer; if packets were due in order the timer is on time afterwards |
| `MaintBuf.Buffer.Meet` | neigh.c:210-249 | a new neighbour starts with number 1, if the table of 50 has room |
| `MaintBuf.SampleOfAnother` | maint-buf.c:528-549 | a run in which the buffer refuses the carrier and an earlier packet is timed |
| `MaintTimer.OnTimeIff` | maint-buf.c:462-498 | where the timer is set as SetTimeout leaves it, it is the expiry of the first packet awaiting an acknowledgement, still to come, if and only if this packet is not due |
| `MaintTimer.SteadyOnTime` | maint-buf.c:462-498 | this is so whenever no packet that is due is behind one that is not |
| `MaintTimer.DueFirstAlways` | maint-buf.c:127-137 | packets are due in order at all times if and only if they are in the order of expiry |
| `MaintTimer.OneTimeOut` | neigh.c:88-96 | with one time-out for all, packets in the order they were sent are in the order of expiry |
| `MaintTimer.MovedSteady` | maint-buf.c:436-446 | sending the first packet again keeps packets due in order |
| `LateTimer.Late` | maint-buf.c:357-498 | a run that fails: a packet is due since 50001 while the timer goes off at 100000, the expiry of a packet that is gone |
| `Rtt.RtoCalc` | neigh.c:127-165 | without wrap-around the estimates are the smoothed ones and stay within 8r-7..8R and 1..4R; the time-out is nine eighths of the mean in its units, within 20..1280 |
| `Rtt.RangeSet` | neigh.c:38-44 | the value itself between the limits, the lower or upper limit outside |
| `Rtt.Feed` | neigh.c:127-165 | the same after every one of any sequence of samples in r..R |
| `Rtt.IntFits` | neigh.c:139-153 | the conversions of the difference lose nothing |
| `Bytes.WordsRoundTrip` | dsr-srt.c:88-89 | addresses copied out of bytes are those copied in, whatever follows |
| `Options.WalkFindsAll` | dsr-opt.c:118-209 | the walk finds exactly the options laid out, in order |
| `Options.FoundIsWritten` | dsr-opt.c:118-209 | what it finds is what was written |
| `Options.PadHidesNext` | dsr-opt.c:194-197 | the option right behind a PAD1 is never found |
| `Options.OnePad` | dsr-opt.c:118-209 | with one PAD1 among the options all of them are found if and only if none comes behind it |
| `Packets.Pkt.Parse` | dsr-opt.c:118-209 | the slots are filled from the options of the walk, which are counted; nothing is said exactly when the walk leaves the memory |
| `Packets.FillMeaning` | dsr-opt.c:136-193 | first source route and acknowledgement request, last route request, first ten of the others |
| `Packets.Pkt.constructor` | dsr-pkt.c:21-35 | room for the options and 128 bytes more |
| `Packets.Pkt.Expand` | dsr-pkt.c:37-62 | the old bytes stay, the new space starts behind them, and the buffer moves only when the tailroom is used up |
| `Codec.SrtRoundTrip` | dsr-srt.c:298-319 | a source route option reads back, and its length fits if and only if it has at most 63 addresses |
| `Codec.SrtIsOpt` | dsr-srt.c:298-319 | the bytes hold the fields forwarding reasons with |
| `Codec.ReceivedFromBytes` | dsr-srt.c:403-410 | the route forwarding rebuilds is the one in the bytes |
| `Codec.RreqRoundTrip` | dsr-rreq.c:422-439 | a request reads back, and fits if and only if it has at most 62 addresses |
| `Codec.RrepFits` | dsr-rrep.c:200-219 | a reply fits if and only if it has at most 62 addresses before the destination |
| `Codec.RrepRoundTrip` | dsr-rrep.c:342-349 | the reply's route is read back from memory |
| `Codec.RrepIsShort` | dsr-rrep.h:16-35 | its length counts one byte less than it takes, which is left over |
| `Codec.RerrRoundTrip` | dsr-rerr.c:25-61 | an error option reads back |
| `Codec.AckRoundTrip` | dsr-ack.c:25-40 | an acknowledgement reads back |
| `Codec.AckReqRoundTrip` | dsr-ack.c:118-132 | a request for one reads back |
| `Senders.PutHdr` | dsr-opt.c:25-41 | exactly the header bytes change, if there is room |
| `Senders.PutSrt` | dsr-srt.c:298-319 | exactly the bytes of the option change, if there is room |
| `Senders.PutRreq` | dsr-rreq.c:422-439 | the same for a request |
| `Senders.PutRrep` | dsr-rrep.c:184-219 | the same for a reply, whose padding byte keeps its old value |
| `Senders.PutRerr` | dsr-rerr.c:25-61 | the same for an error, whose length is corrected when the address is added |
| `Senders.PutAck` | dsr-ack.c:25-40 | the same for an acknowledgement |
| `Senders.PutAckReq` | dsr-ack.c:118-132 | the same for a request for one |
| `Built.CarriesFound` | dsr-opt.c:118-209 | the walk over a packet that carries options finds exactly those |
| `Built.CarriesLength` | dsr-opt.c:25-41 | its header gives their length |
| `Built.SendRreq` | dsr-rreq.c:441-484 | the packet carries exactly the request |
| `Built.SendRrep` | dsr-rrep.c:221-301 | the packet carries exactly the source route and the reply, which reads back although it is a byte short |
| `Built.SendRerr` | dsr-rerr.c:63-184 | the length is right if and only if the old acknowledgements take twelve bytes each on average; then the packet carries exactly the source route, the error, the old errors before the first salvaged too often, and the old acknowledgements |
| `Built.StandardSize` | dsr-rerr.c:100-102 | acknowledgements of standard length take what is counted |
| `Built.CountAlong` | dsr-rerr.c:104-111 | the count is the size of the errors taken along |
| `Built.SendAck` | dsr-ack.c:42-103 | the packet carries exactly the acknowledgement |
| `Built.SendAckReq` | dsr-ack.c:209-250 | the packet carries exactly the request for one |
| `Built.AddSrt` | dsr-srt.c:321-389 | the packet carries exactly its source route |
| `Rewriting.AddAckReq` | dsr-ack.c:187-207 | the packet carries its options and the request behind them, whether the buffer moved or not |
| `Rewriting.OverwriteAckReq` | dsr-ack.c:143-148 | a request already present gets the new id and nothing else changes |
| `Rewriting.NewAckReq` | dsr-ack.c:164-185 | a packet without options carries exactly the request |
| `Rewriting.ExtendRreq` | dsr-rreq.c:636-651 | the request passed on carries one address more, up to 62 |
| `Rewriting.ReplaceInPlace` | maint-buf.c:283-288 | only the source route option changes |
| `Rewriting.ReplaceMoved` | maint-buf.c:289-335 | only the source route option changes, and the header gives the new length |
| `Salvage.ReadSrt` | maint-buf.c:214-220 | salvage count and addresses are those of the option |
| `Salvage.SalvagePacket` | maint-buf.c:188-348 | the packet is rewritten exactly when it can be rerouted, and otherwise stays as it is; then it carries the same options with only the source route replaced by the new route, and what is left of that is the alternative route |
| `Tables.Link` | list.h:51-59 | the node is in the ring between the two |
| `Tables.Unlink` | list.h:95-112 | the ring closes behind the node, whose pointers are cleared |
| `Tables.Table.constructor` | tbl.h:22-26 | an empty table |
| `Tables.Table.Find` | tbl.h:112-121 | the first entry that meets the criterion |
| `Tables.Table.Add` | tbl.h:60-85 | before the first entry that meets the criterion, at the end if there is none, nothing if full |
| `Tables.Table.AddTail` | tbl.h:87-101 | at the end, nothing if full |
| `Tables.Table.Detach` | tbl.h:123-135 | exactly that entry goes |
| `Tables.Table.FindDetach` | tbl.h:192-206 | exactly the first entry that meets the criterion goes |
| `Tables.Table.ForEachDel` | tbl.h:309-324 | exactly the entries that meet the criterion go, and are counted |
| `SendBuf.NumberedOnce` | dsr-io.c:129-171 | every packet given is exactly one of sent, freed and buffered |
| `SendBuf.SendBuffer.StartXmit` | dsr-io.c:129-171 | a packet with a route is sent, or freed if the route cannot be added, and buffer and timer stay; without one it joins the buffer, from a full one the oldest alone leaving, the timer is set if the buffer was empty, and a discovery starts exactly when it is buffered |
| `SendBuf.SendBuffer.Enqueue` | send-buf.c:137-187 | in arrival order within the limit, the oldest leaving when full; the timer is set when the buffer was empty |
| `SendBuf.SendBuffer.SetVerdict` | send-buf.c:189-256 | exactly the packets for the destination leave, in order, sent or freed as a route is found |
| `SendBuf.SendBuffer.Timeout` | send-buf.c:80-118 | exactly the packets that waited too long are freed, and the timer is set to the oldest one's expiry |
| `SendBuf.Garbage` | send-buf.c:61-73 | the deletion loop parts young from stale packets |
| `SendBuf.SendBuffer.Flush` | send-buf.c:258-272 | every packet is freed, in order |
| `DebugLog.Log.EmitChar` | debug.c:177-185 | the log grows by the character, and the unread span stays within the buffer |
| `DebugLog.Log.Read` | debug.c:84-99 | characters are taken in order, none twice, whatever is logged meanwhile; all unread ones if nothing is, and then nothing else of the log changes; a fault is reported only if a put failed |
| `DebugLog.Log.ReadLast` | debug.c:118-158 | a contiguous run ending at the limit captured, none of it overwritten; it is cut short only where characters were lost, and never when nothing is logged meanwhile; the count of logged characters is cleared exactly if asked and something is read |
| `DebugLog.Log.CopyBack` | debug.c:133-142 | the backward copy is such a run |
| `DebugLog.ShiftDown` | debug.c:147-158 | the final shift moves the run to the front |

## Left out

- RequestTable.Table.constructor: requires a capacity of at least one, because the program detaches the first entry of a full table without asking whether there is one.
- LinkCache.Cache.SrtAdd: requires room in the link table for the whole route; what a full table does is stated by `LinkCache.Cache.LinkAdd`.
- LinkCache.Cache.LinkDel: the program's answer is -1 when only one direction was cached; nothing depends on it.
- MaintBuf.Buffer.Timeout: every answer of the cache, whatever neighbours are lost, has at most 63 addresses; without that salvaging need not end (`MaintState.SalvagedAgain`).
- MaintBuf.Buffer.RouteError: no loop-free path in the cache from this node has more than 63 nodes between its ends, because any link may be forgotten; `ShortRoutes.ShortIsExact` says that this is what fitting answers amount to then.
- Discovery.EveryRunCanDeliver: says that a run can go on to delivery, not that every run does, since messages may be lost for ever; the request table, which only suppresses repeats, is not part of it.
- Built.SendRerr: the old acknowledgements fit the memory allocated, counted length and tailroom together; beyond it the program writes past its buffer.
- Rewriting.AddAckReq: packets with a byte left over behind their last option, which are replies and never ask for acknowledgements.
- MaintBuf.Buffer.SetTimeout: the timer when the first packet awaiting an acknowledgement is due already and the timer still runs; it is then that of an earlier setting (`LateTimer.Late`).
- Options.WalkFindsAll: headers without PAD1; `Options.OnePad` says when one PAD1 does no harm, and several are left out.
- Rewriting.ExtendRreq: the request is the last option and four bytes of tailroom are left, as in every packet just received; otherwise the program moves only four of the bytes behind it, or writes to the buffer it has given up.
- Salvage.SalvagePacket: pointers the packet keeps to options other than the source route.
- Rtt.RtoCalc: samples so large that the C types wrap; nine times the largest has to fit an unsigned word and the largest an int.
- RequestTable.Table.Timeout: wrap-around of the doubled time-out in microseconds.
- DebugLog.Log.ReadLast: wrap-around of the unsigned long counters.
- Network.RunSound: routes are as long as they are; widths of fields enter through `Network.RunFits`. The request table only suppresses steps, so it is not part of the network state, and neither are the tables of gratuitous replies, which only suppress replies.
- Salvaging is not bounded: the salvage count is four bits wide and never tested before a packet is salvaged.
- The order of the gratuitous reply table (dsr-rrep.c:61-127), whose insertion compares with the wrong object.
- Link expiry by timer (link-cache.c:185-228), which is compiled out, and the older route cache dsr-rtc-simple.c, which is not built.
- Kernel devices, netfilter, ns-2 packets, ARP, MAC addresses, IP headers and checksums, proc files and configuration changes at run time.
- Failed memory allocations, locks and atomics.
- Flow state, blacklists, passive acknowledgements and multiple interfaces, which the draft describes and the program does not have.
- The dispatch of actions in dsr_recv (dsr-io.c:24-127), a chain of calls whose effects are modelled one by one.
