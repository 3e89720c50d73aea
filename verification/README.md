# perfbench, verified

perfbench measures OpenFlow controllers and hypervisors: tenants send requests over many connections
at a given rate, match the responses to them, and write down latencies and losses. This project models
the parts of perfbench that carry state and arithmetic, and proves what its reports rest on.

| file | what it models |
|---|---|
| `Accounting.dfy`, `History.dfy`, `Ledger.dfy`, `Log.dfy` | what one response does to a connection's row; whole histories of one connection; all connections and the interval figures together; the logfile |
| `Counter.dfy` | the counter object itself: thirteen parallel vectors, the two searches, the limits |
| `Flow.dfy`, `FlowTable.dfy`, `Datapath.dfy` | OpenFlow 1.0 matches as bit tests and as sets of packets; the flow table under flow-mods and lookups; the datapath object |
| `Parser.dfy` | the header parser that feeds the lookup |
| `Framing.dfy` | the read buffer that cuts the byte stream into messages |
| `Schedules.dfy`, `Pacing.dfy`, `Dispatching.dfy` | sample streams, fractional rates, the send loop and its transaction ids |
| `Handshake.dfy`, `Controllers.dfy`, `Versions.dfy` | the controller's handshake over whole runs; the connection and controller objects; the set of supported versions |
| `Options.dfy` | a value that may be missing |
| `Barrier.dfy` | the barrier at which all tenants finish, under every interleaving of their threads |

Code that updates objects is a class whose methods are tied to functions on values; what perfbench
promises is proved about those functions, for every input and every run.

## How the pieces are stated

- **Order independence.** A history is any interleaving of requests with increasing ids and answers to
  issued ids. `History.FinalRow` gives the row in closed form from the *set* of answered requests;
  `History.OrderIndependence` says that two interleavings leave the same row if and only if they agree on
  one thing, whether the answer to the first request came before all others. `History.KeptCopiesDecide`
  extends this to answers that arrive several times.
- **Figures against rows.** `Ledger.FiguresMatchRows` holds in every run, with a term for what repeated
  old answers throw away; `Ledger.FiguresExactIff` says exactly when that term is nothing, and
  `Log.LogAddsUp` carries the equality to the lines of the logfile.
- **Two readings of the match predicates.** `Flows.Reading` is `Documented` (the comments above the
  predicates) or `Compiled` (the operators as written). Each law is proved for the reading it holds in;
  `Flows.CompiledNonStrict` and `Flows.CompiledStrict` give the exact condition under which they agree.
- **Concurrency.** The tenants' threads are a transition system with one step per flag set or flag read.
- **Numbers.** Counters of 32 bits that can go below zero or past the end are taken modulo 2^32. Times,
  rates and latencies are reals.

## Where the code departs from its comments, or from what one would expect

- `~wc(...)` complements a truth value, which is never zero. Read as compiled, strict match is not
  transitive, two entries of the table can strictly match each other (`FlowTables.CompiledTwins`), and
  flow-mods disturb packets they do not match (`FlowTables.CompiledDisturbs`, `FlowTables.AddFrameIff`,
  `FlowTables.DeleteFrameIff`).
- A flow made from a flow-mod keeps the default address masks, so its network addresses are never
  compared (`Datapaths.LookupIgnoresAddresses`).
- The table ascends by priority number and the first match is taken: the smallest number wins, and among
  equal numbers the newest flow (`FlowTables.AddLookup`).
- The answer to the first request is lost when any other answer arrives before it
  (`History.LateFirstAnswerIsLost`).
- A repeated old answer is counted again and lowers the number of missing responses again
  (`History.RepeatMiscounts`, `Ledger.ExcessIsRepeats`).
- `reset` zeroes the counts but not the columns they count (`Counters.Counter.Reset`).
- The barrier can signal up to once per tenant (`Barrier.SignalCounts`); `Barrier.SignalsOnceIff` tells
  the runs in which it signals once.
- Messages behind a refused hello in the same read are still handled, and can list the connection twice
  (`Handshakes.RefusalListsTwice`); `Handshakes.ListedTwiceIff` tells all runs in which that happens.
- The header parser reads nothing behind a VLAN tag, reports the destination address of an 802.3 packet as
  its source, and takes IP options for ports (`Parsing.TaggedHasNoNetworkFields`,
  `Parsing.SnapSourceRightIff`, `Parsing.PortsRightIff`).

## Model

| member | source | states |
|---|---|---|
| Accounting.RequestKeepsAligned | src/counter.cpp:22-36 | a new request keeps the four response columns aligned with the requests they answer |
| Accounting.RespondKeepsAlignedIff | src/counter.cpp:37-137 | a response with any id whatever keeps the row aligned exactly when the id does not lie in the gap between the newest answer and the next request |
| Accounting.RespondKeepsOrdered | src/counter.cpp:37-137 | whatever ids responses carry, responses never outnumber requests and the last id stays consistent with the slots |
| Accounting.IssuedNotInGap | src/counter.cpp:37-137 | an id that was really issued never falls in that gap |
| History.RespondFills | src/counter.cpp:37-137 | a response to request j changes slot j at most, fills it unless it is the late answer to the first request, and raises the last id to its own |
| History.RunReflects | src/counter.cpp:22-137 | after every legal history exactly the answered slots are filled, each with an answer that arrived |
| History.OverwritesIffOldRepeat | src/counter.cpp:50-74 | a response overwrites an earlier answer exactly when its id arrived before, a greater one did too, and it is not the first request's |
| History.RespondPlaceholders | src/counter.cpp:66-73 | a response changes the number of empty slots by the losses it counts, unless it overwrites |
| History.MissingCounts | src/counter.cpp:66-73 | in every legal history missing_responses is the number of placeholders less the number of old repeats, modulo 2^32 |
| History.MissingExactIff | src/counter.cpp:66-73 | missing_responses is the number of placeholders if and only if no old answer was repeated |
| History.RunKeeps | src/counter.cpp:43-137 | in every legal history a filled slot keeps, of the copies of its answer, the last one that was counted |
| History.KeepsFirstIff | src/counter.cpp:43-60 | when no old answer was repeated, the copies kept are exactly the first ones to arrive |
| History.FinalRow | src/counter.cpp:37-137 | the row of every legal history in closed form: 1 + max D slots, slot i filled with the copy that is kept iff i is in D, the missing count, D being the answered requests |
| History.KeptCopiesDecide | src/counter.cpp:37-137 | two interleavings of the same requests that keep the same copies and have as many old repeats leave the same row if and only if they agree on whether the first request was answered first |
| History.FirstCopiesDecide | src/counter.cpp:37-137 | the same for histories without old repeats that agree on the first copies, however often answers are repeated at once |
| History.OrderIndependence | src/counter.cpp:37-137 | two interleavings of the same requests and at-most-once answers leave the same row if and only if they agree on whether the first request was answered first |
| History.DeterminedUniquely | src/counter.cpp:37-137 | the closed form leaves no freedom: requests, kept copies, old repeats and whether the first request was answered first determine the whole row |
| History.LateFirstAnswerIsLost | src/counter.cpp:52-58 | a concrete pair of orders that leave different rows |
| History.RepeatMiscounts | src/counter.cpp:50-73 | a concrete history of six events that goes wrong: one old answer repeated leaves a placeholder and a missing count of 0 |
| History.ShortestRepeat | src/counter.cpp:50-73 | no legal history of fewer than six events repeats an old answer |
| Ledger.RunAligned | src/counter.cpp:22-137 | in every reachable state of all connections every row is aligned |
| Ledger.ConnectionsIndependent | src/counter.cpp:22-137 | in every run the row of a connection is the one its own history leaves |
| Ledger.FiguresMatchRows | src/counter.cpp:131-145 | over all intervals the counted responses, losses, latency sum and bytes are the totals of the rows plus what old repeats threw away |
| Ledger.DisplacedNothingIff | src/counter.cpp:66-73 | nothing is thrown away exactly when no connection saw an old answer repeated |
| Ledger.FiguresExactIff | src/counter.cpp:131-145 | the counted responses are the answers in the rows if and only if no old answer was repeated; then all figures agree |
| Ledger.ExcessIsRepeats | src/counter.cpp:143-144 | in every run the counted responses exceed the answers in the rows by the number of repeated old answers |
| Ledger.RepeatIsCountedTwice | src/counter.cpp:50-74 | a concrete run with two answers in the row and three counted |
| Ledger.LossesConserved | src/counter.cpp:116-124 | in every run interval_losses summed over all intervals equals the total of missing_responses modulo 2^32, negative intervals included |
| Ledger.LossesExact | src/counter.cpp:171-178 | without old repeats the losses over all intervals are exactly the missing responses, and those are exactly the placeholders, connection by connection |
| Ledger.RequestFigures | src/counter.cpp:33-35 | in every run the requests reported over all intervals are as many as were sent, and the byte total is the sum of their sizes |
| Log.LineShowsOwnAnswer | src/testcases.cpp:322-364 | in every run, line r of the log shows the answer to request r if that request counts as answered and zeros otherwise |
| Log.RequestsReadBack | src/testcases.cpp:322-364 | in every run the requests read back from the lines of a connection, in order, are the requests sent on it: id, time, size and type |
| Log.AnswersReadBack | src/testcases.cpp:334-362 | in every run, line r of a connection tells time, size, type and latency of the copy of answer r that is kept, and zeros if there is none |
| Log.LinesInOrder | src/testcases.cpp:322-365 | the log lists the connections one after the other |
| Log.LogAddsUp | src/testcases.cpp:340-350 | in every run the answered log lines are as many as the reported responses if and only if no old answer was repeated; then latency and bytes add up to the figures too |
| Counters.PushPlaceholders | src/counter.cpp:116-122 | appends just the placeholders, in all four columns of one connection |
| Counters.Counter.constructor | src/counter.cpp:3-9 | a new counter has recorded nothing |
| Counters.Counter.AddConnection | src/testcases.cpp:29-55 | opens one entry in all thirteen vectors and returns its index |
| Counters.Counter.CountRequest | src/counter.cpp:22-36 | records the request on its connection and nothing else |
| Counters.Counter.SearchBackwards | src/counter.cpp:52-60 | finds exactly the late request with this id, never the first one |
| Counters.Counter.SearchForwards | src/counter.cpp:96-114 | finds exactly the request with this id among those not answered, and how many it skips |
| Counters.Counter.RecordLate | src/counter.cpp:61-74 | records a late answer in its slot and takes its loss back |
| Counters.Counter.PushAnswer | src/counter.cpp:115-136 | the row of the connection becomes the row after the response, the other rows stay |
| Counters.Counter.RecordNew | src/counter.cpp:115-137 | records a new answer behind placeholders for the requests it overtook |
| Counters.Counter.CountResponse | src/counter.cpp:37-146 | the thirteen vectors and the interval figures change as one response of the run model says |
| Counters.Counter.WriteRow | src/testcases.cpp:324-364 | writes the lines of one connection |
| Counters.Counter.WriteLogfile | src/testcases.cpp:322-365 | writes the lines of all connections in order |
| Counters.Counter.NewInterval | src/counter.cpp:171-178 | clears the interval figures and counts the interval, and keeps the running byte totals and the rows |
| Counters.Counter.Reset | src/counter.cpp:11-21 | zeroes both counts of every connection, the byte totals and the interval; keeps the columns, so the counter is consistent exactly when nothing was requested before |
| Counters.Counter.LimitReached | src/counter.cpp:192-211 | true exactly when finished, when the time limit has passed since the start, or when as many requests were sent as the packet limit says; and true from then on |
| Flows.NonStrictIsInclusion | src/switch/flow.hh:77-121 | non-strict match, read as documented, holds if and only if every packet the second flow matches is matched by the first, masked addresses included |
| Flows.PktMatchBits | src/switch/flow.hh:126-173 | what a flow matches, by the bit positions of the wildcard word and outside the address masks |
| Flows.NwIncluded | src/switch/flow.hh:95-98 | the mask formula makes every address matched by the narrower flow matched by the wider |
| Flows.NwFromTwo | src/switch/flow.hh:95-98 | two addresses decide the mask formula: the flow's own and the one with every masked bit flipped |
| Flows.StrictIsBothWays | src/switch/flow.hh:51-66 | strict match, read as documented, is non-strict match both ways |
| Flows.StrictIsSamePackets | src/switch/flow.cc:10-14 | at equal priority, flows strictly match exactly when they match the same packets |
| Flows.CompiledNonStrict | src/switch/flow.hh:77-93 | the compiled non-strict match is implied by the documented one; they agree exactly when the second flow has no wildcard the first lacks |
| Flows.CompiledStrict | src/switch/flow.hh:22-38 | the compiled strict match is implied by the documented one; they agree exactly when both flows wildcard the same fields |
| Flows.StrictSymmetric | src/switch/flow.hh:22-66 | strict match is symmetric in either reading |
| Flows.StrictIsNonStrict | src/switch/flow.hh:77-121 | as compiled too, strict match implies non-strict match |
| FlowTables.AddLookup | src/switch/datapath.cc:63-75 | what an ADD does to the lookup of every packet in a sorted table, in either reading |
| FlowTables.AddFrame | src/switch/datapath.cc:63-75 | read as documented, an ADD changes the lookup only of packets the new flow matches |
| FlowTables.AddFrameIff | src/switch/datapath.cc:63-75 | in either reading, on every sorted table, an ADD leaves the lookup of a packet outside the new flow alone if and only if the entry it erases was not the packet's first match, or the next match is an equal entry |
| FlowTables.DeleteKeeps | src/switch/datapath.cc:95-109 | a DELETE removes every copy of the entries its pattern non-strictly matches and no other entry |
| FlowTables.DeleteLookup | src/switch/datapath.cc:95-109 | a DELETE leaves the lookup of a packet as it was if and only if the packet's flow is not matched by the pattern |
| FlowTables.DeleteFrame | src/switch/datapath.cc:95-109 | read as documented, a DELETE changes the lookup only of packets its pattern matches |
| FlowTables.DeleteFrameIff | src/switch/datapath.cc:95-109 | in either reading, on every table, a DELETE leaves all packets outside its pattern alone if and only if earlier entries match every such packet of each entry it erases |
| FlowTables.DeleteRemovesCovered | src/switch/datapath.cc:95-109 | read as documented, an entry survives a DELETE if and only if it matches some packet the pattern does not |
| FlowTables.AddNoTwinsIff | src/switch/datapath.cc:68-75 | an ADD keeps the table free of strictly equal entries if and only if at most one entry is strictly equal to the new flow |
| FlowTables.DocumentedOneTwin | src/switch/datapath.cc:68-75 | read as documented, there never is more than one such entry |
| FlowTables.TableInvariant | src/switch/datapath.cc:59-111 | read as documented, after every sequence of flow-mods the table is sorted and no two entries strictly match |
| FlowTables.CompiledSorted | src/switch/datapath.hh:15-19 | as compiled, the table is still sorted after every sequence of flow-mods |
| FlowTables.CompiledAddFrame | src/switch/datapath.cc:63-75 | as compiled, an ADD changes no lookup outside the new flow if the erased entry wildcards no field that the flow matches exactly |
| FlowTables.CompiledDeleteFrame | src/switch/datapath.cc:95-109 | the same for a DELETE and the entries it erases |
| FlowTables.CompiledDisturbs | src/switch/flow.hh:77-87 | a concrete table from which, as compiled, an ADD and a DELETE for one port take away the flow of a packet from another port |
| FlowTables.CompiledTwins | src/switch/flow.hh:22-26 | three concrete ADDs after which, as compiled, two entries strictly match each other |
| Datapaths.Datapath.InsertFlow | src/switch/datapath.hh:15-19 | the flow stands behind all smaller priorities and before all others; the other entries keep their order and the table stays sorted |
| Datapaths.Datapath.ReplaceFlow | src/switch/datapath.cc:68-75 | the search loop, the erase and the insert together are the ADD of the value model |
| Datapaths.Datapath.EraseFlows | src/switch/datapath.cc:99-107 | the loop that erases while it walks is the DELETE of the value model |
| Datapaths.Datapath.HandleFlowMod | src/switch/datapath.cc:59-111 | the table becomes that of the value model and stays sorted; the buffered packet an ADD names is handled exactly when the new flow matches it |
| Datapaths.Datapath.PacketHandler | src/switch/port.cc:38-77 | a captured packet is parsed and given its first matching flow; without one it is buffered under the next id and the controller, if connected, is told |
| Datapaths.LookupIgnoresAddresses | src/switch/datapath.cc:63-75 | after any sequence of flow-mod messages no lookup depends on the packet's network addresses |
| Datapaths.AddressesChooseNothing | src/switch/port.cc:46-64 | the same from the bytes on: after any sequence of flow-mod messages, two IPv4 frames that differ only in their addresses are given the same flow |
| Datapaths.PayloadChoosesNothing | src/switch/port.cc:46-64 | the flow of a captured packet is decided by its port and its first 54 bytes |
| Datapaths.FrameMatches | src/switch/port.cc:46-53 | from bytes to lookup: a flow matches an IPv4 frame exactly when each field it does not wildcard has that value in the frame |
| Datapaths.TaggedLookup | src/switch/port.cc:46-53 | a tagged frame is looked up with id, priority and inner type of its tag |
| Datapaths.ArpLookup | src/switch/port.cc:46-53 | an ARP packet is looked up with its sender and target address |
| Datapaths.AfterAdd | src/switch/datapath.cc:63-75 | after an ADD message the table holds a flow with what the message says, and nothing else is new |
| Datapaths.AfterDelete | src/switch/datapath.cc:95-109 | after a DELETE message just the entries are gone that a flow with its fields non-strictly matches; other commands change nothing |
| Parsing.ExtractFlowFields | src/switch/flow.cc:22-194 | for every packet the parser ends, reads inside the packet only, and sets exactly the fields of its layers |
| Parsing.TaggedHasNoNetworkFields | src/switch/flow.cc:79-114 | a tagged packet gets no network or transport fields, whatever it carries |
| Parsing.SnapSourceRightIff | src/switch/flow.cc:75-77 | the source address of an 802.3 packet is right if and only if it equals the destination, which is never set |
| Parsing.PayloadHasNoSay | src/switch/flow.cc:22-194 | the fields of a packet are decided by its first 54 bytes |
| Parsing.FrameRestores | src/switch/flow.cc:130-150 | encoding an Ethernet frame with any IPv4 packet and parsing it gives back all fields up to the network layer |
| Parsing.RoundTrip | src/switch/flow.cc:130-192 | without IP options, parsing an encoded TCP, UDP or ICMP packet gives back every field |
| Parsing.ArpRoundTrip | src/switch/flow.cc:115-128 | an encoded ARP packet gives back sender and target address, the addresses of the frame and the low byte of the operation |
| Parsing.TaggedRoundTrip | src/switch/flow.cc:79-98 | an encoded tagged frame gives back addresses, id, priority and inner type |
| Parsing.PlainRoundTrip | src/switch/flow.cc:38-42 | a frame of any other type gives back addresses and type |
| Parsing.SnapRoundTrip | src/switch/flow.cc:43-78 | an 802.3 frame with a SNAP header gives its destination as source, its length as type, and nothing else |
| Parsing.LayersSetIff | src/switch/flow.cc:22-194 | which layers are set, by the length of the packet and the bytes at fixed places |
| Parsing.FragmentBits | src/switch/flow.cc:144-148 | a packet counts as a fragment exactly when more follow or its offset is not 0 |
| Parsing.OptionsReadAsPorts | src/switch/flow.cc:137-189 | with IP options, the ports set, or ICMP type and code, are the first bytes of the options |
| Parsing.PortsRightIff | src/switch/flow.cc:137-189 | the transport fields of an unfragmented TCP, UDP or ICMP packet are right if and only if it has no options, or options that begin with those fields |
| Framing.ParseRestores | src/base/BaseOFConnection.cc:314-337 | the messages found and the unfinished rest are the whole stream; each message has the length it says |
| Framing.ParseConcat | src/base/BaseOFConnection.cc:314-337 | the stream of any list of well-formed messages is cut into just those messages |
| Framing.ParseAppend | src/base/BaseOFConnection.cc:314-337 | parsing piecewise with the unfinished bytes carried over is parsing the whole |
| Framing.FragmentationIndependent | src/base/BaseOFConnection.cc:314-337 | two ways of splitting a stream over reads dispatch the same messages and hold the same bytes |
| Framing.SentIsDelivered | src/base/BaseOFConnection.cc:314-337 | messages sent one after the other arrive as sent, in whatever fragments, and leave nothing behind |
| Framing.PackedIsMessage | src/base/BaseOFConnection.cc:79-79 | a message laid out by section 5.1 of the OpenFlow Switch Specification 1.0.0, more significant length byte first, is a message of just that length |
| Framing.PackedIsDelivered | src/base/BaseOFConnection.cc:314-337 | messages laid out so and sent one after the other are dispatched as they were packed, in whatever fragments |
| Framing.OFReadBuffer.constructor | src/base/BaseOFConnection.cc:33-35 | a new buffer holds nothing |
| Framing.OFReadBuffer.GetReadLen | src/base/BaseOFConnection.cc:50-55 | between reads there is always something left to read |
| Framing.OFReadBuffer.StartMessage | src/base/BaseOFConnection.cc:78-84 | a complete header makes room for its message and is kept as its beginning |
| Framing.OFReadBuffer.ReadNotify | src/base/BaseOFConnection.cc:73-86 | the buffer then holds the bytes held before followed by those read, and is ready exactly with one whole message |
| Framing.OFReadBuffer.HeldState | src/base/BaseOFConnection.cc:89-91 | ready means exactly one message is held, not ready means an incomplete one |
| Framing.OFReadBuffer.Clear | src/base/BaseOFConnection.cc:111-123 | an empty buffer |
| Framing.OFReadBuffer.ReadCb | src/base/BaseOFConnection.cc:314-337 | the loop drains its input: what it dispatches and still holds is the parse of what was held followed by the input |
| Framing.OFReadBuffer.Receive | src/base/BaseOFConnection.cc:314-337 | over any sequence of callbacks, what is dispatched and held is the parse of the whole stream |
| Schedules.WindowRotates | src/scheduler.cpp:71-82 | n consecutive samples are the list of n, rotated |
| Schedules.WindowSum | src/scheduler.cpp:71-82 | any n consecutive calls return every sample once and add up to the total |
| Schedules.Scheduler.NextInterBurstTime | src/scheduler.cpp:71-76 | the k-th call returns sample k modulo n; without samples it fails |
| Schedules.Scheduler.NextBurstSize | src/scheduler.cpp:77-82 | the same for burst sizes, from a cursor of its own |
| Pacing.Settings.SetPps | src/testcases.cpp:211-231 | the rate per burst is at least one whole message, and splits into a whole part and a fraction |
| Pacing.PaceOf | src/packetdispatcher.cpp:35-40 | after k bursts a connection was sent the scheduled total and the whole part of the accumulated fractions; the carry stays in [0,1) |
| Pacing.ExactPacing | src/packetdispatcher.cpp:35-40 | with uniform scheduling exactly floor(k * rate) messages were sent after k bursts |
| Dispatching.XidTellsConnectionIff | src/testcases/flowmodsandwich.cpp:110-112 | xid / 10000000 gives back the connection if and only if the request is one of its first 9999999 |
| Dispatching.AllocatedAlways | src/packetdispatcher.cpp:68-78 | in every reachable state, under every interleaving of requests with connections, responses and reports, request i of connection c carries 10000000 * c + i + 1 |
| Dispatching.XidValues | src/packetdispatcher.cpp:68-68 | the ids as numbers: connection 0 from 1, connection 1 from 10000001, one more per request |
| Dispatching.XidsEqualIff | src/packetdispatcher.cpp:68-68 | when exactly two requests share an id |
| Dispatching.XidsDistinctIff | src/packetdispatcher.cpp:97-97 | all ids in use are distinct if and only if no connection has run over into the span of another that has sent something |
| Dispatching.GapIsBelowFirst | src/counter.cpp:45-54 | with allocated ids the alignment of a row can only be broken before its first answer, by an id below the row's own |
| Dispatching.Dispatcher.SendOne | src/packetdispatcher.cpp:62-80 | the request carries the id of its place and is counted on its connection |
| Dispatching.Dispatcher.SendRound | src/packetdispatcher.cpp:59-85 | one more request on every connection, none elsewhere, ids still allocated |
| Dispatching.Dispatcher.SendBurst | src/packetdispatcher.cpp:49-132 | n more requests on every connection |
| Dispatching.Dispatcher.NextBurst | src/packetdispatcher.cpp:34-40 | the burst size and the carry are those of the pacing |
| Dispatching.Dispatcher.SendPaced | src/packetdispatcher.cpp:34-132 | one burst below the packet limit keeps to the pacing and overshoots the limit by less than a burst |
| Dispatching.Dispatcher.NextTurn | src/packetdispatcher.cpp:26-32 | one time sample is drawn for every check of the limits; a check that lets the loop go on read a clock before the deadline, one that stops it below the packet limit read a clock at or past it |
| Dispatching.Dispatcher.SendLoop | src/packetdispatcher.cpp:7-140 | the loop ends; every connection was sent exactly what the pacing says; every burst followed a reading of the clock before the deadline; the total is less than the packet limit plus one burst; a limited stop below the packet limit read a clock at or past the deadline; the time cursor is one call ahead of the size cursor |
| Dispatching.Dispatcher.UniformPaced | src/packetdispatcher.cpp:34-40 | what the loop has sent after k uniform bursts is floor(k * rate) per connection |
| Dispatching.Dispatcher.SendAtRate | src/testcases.cpp:211-231 | with the settings made by `pps` and uniform bursts, the loop has sent every connection exactly floor(k * pps * interval / 1000) requests after k bursts |
| Barrier.BarrierSafeAndLive | src/systemstate.cpp:35-46 | under every interleaving no signal comes before every tenant has finished, and once all threads have returned there has been one |
| Barrier.NoDeadlock | src/systemstate.cpp:35-46 | a run that has not ended can go on |
| Barrier.RunsEnd | src/systemstate.cpp:35-46 | every run ends, within n (n + 2) steps |
| Barrier.SignalCounts | src/systemstate.cpp:35-54 | the number of signals of a complete run can be any number from 1 to n and no other |
| Barrier.SignalsAfterLastFlag | src/systemstate.cpp:35-54 | once the last flag is set, every complete continuation signals once for its thread and once for each other thread scanning at that moment |
| Barrier.SignalsOnceIff | src/systemstate.cpp:35-54 | a complete run signals exactly once if and only if no thread is scanning when the last flag is set |
| Barrier.AtomicIsRun | src/tenant.cpp:88-92 | setting the flag and scanning in one go is one of the interleavings |
| Barrier.AtomicSignalsOnce | src/tenant.cpp:88-92 | when it is always done in one go there is exactly one signal, with the last tenant |
| Barrier.SystemState.TenantFinished | src/systemstate.cpp:35-46 | signals exactly if every flag is set |
| Barrier.SystemState.TestcaseFinished | src/tenant.cpp:88-92 | sets the flag of its tenant; exactly one signal once all are set, none before |
| Handshakes.RunIsSettled | src/OFServer.cc:62-157 | in every run an open connection is running exactly when it is listed and in its handshake otherwise |
| Handshakes.RepeatIsLate | src/Controller.cpp:34-103 | only a message on a closed connection can list it again |
| Handshakes.ListedOnceIff | src/Controller.cpp:34-103 | in every run conns has no duplicates if and only if no message completes the handshake of a connection that is listed |
| Handshakes.ListedOnce | src/Controller.cpp:34-103 | in every run with no message on a closed connection conns has no duplicates |
| Handshakes.RunTells | src/OFServer.cc:62-157 | in every run the inputs alone tell whether a connection is known, open, alive, listed and running |
| Handshakes.ListedTwiceIff | src/Controller.cpp:34-103 | conns has a duplicate if and only if some connection got a completing message, was then closed or had a hello refused, and got a completing message again |
| Handshakes.RefusalListsTwice | src/OFServer.cc:106-119 | a concrete run, possible within one read: a refused hello between two completing messages lists the connection twice |
| Handshakes.TestcaseRefuses | src/testcases.cpp:96-110 | the settings of a testcase's controller, for OpenFlow 1.3 and for 1.0, admit that run |
| Handshakes.HeaderRefusedIff | src/OFServer.cc:94-119 | a hello without an element is refused exactly when handshakes are on and its version is not among those declared |
| Handshakes.ElementRefusedIff | src/OFServer.cc:88-119 | a hello with an element, where elements are used, is refused exactly when handshakes are on and no version is both declared and announced |
| Handshakes.EventsByNumber | src/Controller.cpp:30-115 | every event by the number of its message type, and which types complete a handshake in which state |
| Handshakes.ScreenedByNumber | src/OFServer.cc:75-142 | by number: which messages the controller does not see, and when the echo timer is set up |
| Handshakes.EchoByNumber | src/OFServer.cc:125-128 | the echo reply that counts is of type 3 with id 15 |
| Handshakes.EventFor | src/Controller.cpp:30-115 | exactly the messages that complete a handshake raise the connection-up event |
| Handshakes.AliveIff | src/OFServer.cc:124-128 | once marked as silent, a connection is alive until the next timer if and only if it answered the echo request |
| Handshakes.ClosedBySilenceIff | src/OFServer.cc:229-249 | whatever is received between two timers, the second closes an open connection exactly when no answer came in between |
| Controllers.OFConnection.constructor | src/OFConnection.cc:6-15 | a new connection is alive, open and in its handshake |
| Controllers.OFConnection.Close | src/OFConnection.cc:69-80 | closing puts an open connection down, and does nothing to a closed one |
| Controllers.Controller.constructor | src/Controller.cpp:3-13 | a new controller is where every run of the model starts |
| Controllers.Controller.ConnectionUp | src/OFServer.cc:186-219 | the hello that is sent; the new connection is known, in its handshake and not listed; the step is that of the run model |
| Controllers.Controller.Establish | src/testcases.cpp:29-55 | the connection is running, listed, its event raised, and its row opened at its place in the list when the controller is the sender; the list stays in order exactly when the connection was not listed |
| Controllers.Controller.MessageCallback | src/Controller.cpp:30-115 | which messages complete a handshake, in which states, what that does to list, version and counter, and the event of every message |
| Controllers.Controller.Screen | src/OFServer.cc:62-144 | echo, hello and features reply: the answer, the new state, whether the echo timer is set up, and whether the controller sees the message |
| Controllers.Controller.BaseMessageCallback | src/OFServer.cc:62-157 | one message is one step of the run model; everything stays valid exactly when it does not complete the handshake of a listed connection |
| Controllers.Controller.OpenIsNotRepeated | src/Controller.cpp:34-103 | no message of an open connection does that |
| Controllers.Controller.ConnectionDown | src/OFServer.cc:221-225 | a lost connection is closed and its event raised; the step is that of the run model |
| Controllers.Controller.SendEcho | src/OFServer.cc:229-249 | a connection that did not answer is closed and its event raised, any other is asked again; the step is that of the run model |
| Controllers.OpenFlow10 | src/Controller.cpp:41-57 | a whole handshake of OpenFlow 1.0 with a testcase's controller: what is sent back, the one event, and the connection running and listed |
| Controllers.OpenFlow13 | src/Controller.cpp:60-101 | a whole handshake of OpenFlow 1.3, with the port description that is asked for |
| Versions.OneBitLeft | src/OFServerSettings.cc:31-36 | when shifting leaves one bit, that bit is the largest version in the bitmap |
| Versions.MeetsIff | src/OFServer.cc:98-98 | two bitmaps have a bit in common exactly when they have a version in common |
| Versions.BitValues | src/OFServerSettings.cc:29-29 | the bitmaps of single versions as numbers |
| Versions.CountShifts | src/OFServerSettings.cc:31-36 | the shift loop ends with the place of the highest bit |
| Versions.OFServerSettings.constructor | src/OFServerSettings.cc:5-15 | by default just version 1 is supported |
| Versions.OFServerSettings.SupportedVersion | src/OFServerSettings.cc:17-26 | the bitmap is the set of declared versions, the first declaration replacing the default, and the maximum its largest element |
| Versions.OFServerSettings.AddVersion | src/OFServerSettings.cc:28-37 | adds just that version to the set and keeps the maximum |

## Left out

- libevent, sockets, TLS, pcap, pthreads, boost signals and sleeping: input comes as byte chunks, captured packets or messages, and the clock, the stop flag and the answers are parameters.
- Packing and unpacking of OpenFlow messages, and building of dataplane packets: a message is a record with id, time, size and type.
- Counters.Counter.CountResponse: a response must not come before the first request of its connection is counted; the first probe one past the last request is taken as an id that matches nothing.
- Counters.Counter.CountRequest: request ids are positive and increase on their connection, as the dispatcher's do; the dataplane path that numbers its requests from 0 is not modelled.
- Counters.Counter.CountResponse: its two searches and its two ways of recording are methods of their own; the columns of requests and of responses are grouped into one value each, so reads by another thread in the middle of an update are not captured.
- Rows of 2^31 elements and more, where an index would be cut to fewer bits, and byte totals and packet sums past 32 bits.
- History.MissingExactIff: for histories of fewer than 2^32 events, past which the counter itself wraps around.
- Log.LogAddsUp: answers carry a time other than 0, the time by which the log tells that there is no answer.
- Dispatching.Dispatcher.SendLoop: the connections are fixed while it runs and fewer than 256, the 8-bit loop index being enough; ids stay within 32 bits.
- Dispatching.Dispatcher.SendLoop: the pause between bursts and within a burst, and calls before a packet is sent, which testcases override; the packet limit is not 0 and no scheduled burst is empty, as without that the loop need not end.
- Dispatching.Dispatcher.SendPaced: the same limits.
- Pacing.Settings.SetPps: floor and division are those of the reals; rounding of float and double is not modelled.
- Random samples: the sample lists of the scheduler are arbitrary.
- Barrier.SystemState.TenantFinished: fewer than 256 tenants, the 8-bit loop index being enough; the cooldown and the stopping of tenants that follow the signal; failing tenants.
- Framing.OFReadBuffer.ReadCb: every length field in the stream counts at least its header of 8 bytes, as the protocol demands; the buffer does not handle shorter ones.
- Framing.OFReadBuffer.Receive: the same.
- Framing.OFReadBuffer.ReadNotify: the same, for the header that the bytes complete.
- Framing.OFReadBuffer.StartMessage: the same, for its header.
- Handshakes.RunIsSettled: an id is given out once, and only known connections are named; a version of 32 or more in a hello shifts past the word, and what that gives is a parameter.
- Controllers.Controller.BaseMessageCallback: listeners of the events other than the testcase's own, freeing of messages, port lists, and the text of the log.
- Controllers.Controller.constructor: takes any settings; those that a testcase puts in force are `Handshakes.SETTINGS_13` and `Handshakes.SETTINGS_10`; address and port are left out.
- Controllers.Controller.ConnectionUp: a server that uses hello elements but supports no version from 4 on sends 8 bytes it never wrote; the model's hello has no element then.
- Controllers.Controller.Screen: how often the timer fires is left to the run.
- Controllers.Controller.MessageCallback: the port lists stored from the replies.
- Versions.OFServerSettings.SupportedVersion: for versions 0 to 30; shifting a signed one further is left to the machine.
- Versions.OFServerSettings.AddVersion: the same.
- Datapaths.Datapath.HandleFlowMod: an ADD names no buffer or one that holds a packet, as the code takes for granted; what the actions do is left out, and that the memory of the packet is freed while its buffer id stays taken; MODIFY and the strict DELETE do nothing, as in the code; the calls of this handler in the switch are commented out.
- Datapaths.Datapath.PacketHandler: what the actions of the flow found do; the fields of a new match before parsing are a parameter.
- Parsing.ExtractFlowFields: the fields set are a value returned, fields not set being absent; addresses are bytes; unaligned loads are not an issue.
- match_std_overlap: nothing calls it.
- conn_id_to_index, reports, argument parsing, scripts and the web interface.
