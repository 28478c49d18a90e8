# Verified models of the network programs

A Dafny 4.11 model of the protocol and parsing code in this repository, with
proofs. `dafny verify dfyconfig.toml` checks everything.

The code that updates state in place is modelled twice. A class or a method with
loops does what the C code does, on arrays and fields. A function on values says
what that step means, and the method's contract equates the two. The theorems
about whole runs are lemmas about the functions.

| files | what they model |
|---|---|
| RoutingTable, OdrBuffer, OdrNode, OdrOutcome | one on-demand routing daemon: the row array, the buffer of waiting clients and `process_frame` |
| OdrNetwork, OdrRows, OdrRoutes, OdrFlood, OdrClients, OdrDiscovery, OdrStray, OdrClear | a network of daemons and their clients over whole runs |
| TransferClient, TransferServer | the two ends of the file transfer over UDP |
| TransferSystem, TransferWindow, TransferComplete, TransferOvershoot, TransferTail | both ends over a channel that loses, repeats and reorders |
| Inet4, Inet6Print, Inet6Parse, Inet6RoundTrip, Inet6Grammar, Inet6Rfc, Inet6Form | address text conversion |
| Checksum, SignalQueue, AddrInfoList, AddrInfoPorts, RttEstimator | Internet checksum, signal-driven echo queue, `ga_serv` and `ga_port`, timeout estimator |
| Basics | types the others share |

## Main results

**Routing.** In every state of every clear-free run of any number of daemons,
with frames lost, repeated and reordered at will, following next hops never
visits a node twice and reaches an owner of the address
(`OdrRoutes.NextHopsReachOwner`, `OdrRoutes.NoRoutingLoop`). Each row is the summary
of all the control frames about its address ever delivered there
(`OdrRows.RowSumsUpRun`). What a daemon sends for a frame or a request is given frame
by frame and interface by interface from the table before (`OdrOutcome.RreqOutcome`,
`OdrOutcome.RrepOutcome`, `OdrOutcome.PayloadOutcome`, `OdrOutcome.RequestRouted`,
`OdrOutcome.RequestFloods`). A payload or reply
sent along a row never gets stuck (`OdrRoutes.RoutedPacketHasRoute`,
`OdrRoutes.RoutedPacketMovesOn`). Once clients stop asking all tables settle,
whatever frames are repeated and floods restarted (`OdrFlood.TablesSettle`). Once
repetitions and floods started by a daemon end too, flooding stops, and the network
falls silent unless a reply goes astray (`OdrFlood.FloodStops`,
`OdrFlood.NetworkFallsSilent`); which deliveries start a flood or go astray can be
read off the frame and the table (`OdrFlood.StartsFloodIff`, `OdrStray.StrayIff`).
Along any path discovery can complete, up to the client holding the answer
(`OdrDiscovery.DiscoveryCompletes`). At every daemon each request is either in a
slot of the buffer or was answered, once (`OdrClients.AskedOnceAnsweredOnce`), and
with what an owner of the address answered in the same run
(`OdrClients.AnswersAuthentic`).

Two things go wrong, and each has its exact condition. A table clear can close a
loop (`OdrClear.ClearCanLoop`). Over a run with any number of clears no state has a
loop exactly when no delivery makes a node create a row from a sender whose own
route leads to that node (`OdrClear.StepLoopFreeIff`, `OdrClear.RunLoopFreeIff`).
And `send_rrep` can read in front of the row array: exactly for a node's own RREQ
that it could answer, and for an RREP whose target it neither owns nor has a row
for (`OdrStray.StrayIff`). It does happen (`OdrStray.StrayHappens`).

**File transfer.** Whatever the channel and the reader thread do, line k of the
output is word k of the file (`TransferSystem.PrintsTheFile`), the output only
grows (`TransferSystem.OutputOnlyGrows`) and the sender never finishes early
(`TransferSystem.NeverFinishesEarly`). Every file can be transferred completely
(`TransferComplete.TransferCompletes`). From any state to the next timeout the
congestion window has a closed form in its size, the threshold and the number of
acknowledgements (`TransferWindow.WindowLaw`): powers of two up to half the window of
the last timeout, then one more each time (`TransferWindow.AfterTimeout`). Two things the programs are for do not hold
in every run, and each has its exact condition.

The client leaves only with the whole file accepted
(`TransferSystem.LeavesWithTheFile`), but its last pass over the ring stops at the
end of the array. A run prints three words of a four-word file although both ends
finish (`TransferTail.LastWordNotPrinted`). Everything accepted is printed exactly
when the lines left for that pass do not wrap around
(`TransferSystem.LastPassPrintsAllIff`).

The end marker is not always exact: a
rewind past the last word before the sender has met the end of the file sends
the last word again (`TransferOvershoot.LastWordRepeated`). Past the last word
only the end marker is sent exactly in the runs without such a rewind
(`TransferSystem.CleanIffNoOvershoot`), and then what the client accepts is the file
and one end line (`TransferSystem.CleanTransfer`).

**Address text.** Parsing the printed form of any IPv6 address gives that address
back (`Inet6RoundTrip.RoundTrip`). `inet_pton6` and `inet_pton4` accept exactly the
texts of a grammar on the pieces between colons and dots, with the meaning given
there (`Inet6Grammar.Pton6Exact`, `Inet4.Pton4Exact`), and so does `inet_aton`
(`Inet4.AtonExact`). Everything printed is an address of section 2.2 of RFC 1884
(`Inet6Rfc.PrintsRfc`); everything of that form is accepted, and what is accepted
beyond it is characterised exactly (`Inet6Rfc.BeyondRfcIff`). Which addresses print
with a dotted quad can be read off their bytes (`Inet6Form.DottedIff`), and every number
is printed the one way without leading zeros and capital letters
(`Inet6Form.HexUnique`, `Inet6Form.QuadTextUnique`).

## Where the code and its comments disagree

- unpv13e/libfree/inet_pton.c:134 says `::` in a full address is silently ignored.
  The shift loop clears every byte after it instead, as in `1:2:3:4::5:6:7:8`
  (`Inet6Rfc.FullDoubleText`). The two agree exactly when those bytes are zero
  (`Inet6Rfc.FullDoubleIff`).
- unpv13e/libfree/inet_pton.c:131 promises 1 only for the addresses of section 2.2 of
  RFC 1884. The code takes more, in exactly four ways: a group of more than four
  digits, an octet of more than three, a single colon at the end, and a `::` in a full
  address (`Inet6Rfc.BeyondRfcIff`). The RFC speaks of multiple groups of zeros where a
  `::` stands; the grammar here lets it stand for one or more.
- hw2/rtt.c:34 says the first timeout is 3 seconds. The estimators are in
  milliseconds there, so the sum is 3 and the clamp makes it 1000.
- unpv13e/sigio/dgecho01.c:6 calls 8 the size of the queue. Line 86 tests for a full
  queue before every read, the last unsuccessful one included, so the server quits
  once eight datagrams are queued and never holds more than seven between signals.
- unpv13e/libfree/inet_ntop.c:95 compares the text's length with the buffer's without
  its terminator, which line 192 counts. One byte too many is copied exactly when the
  two lengths are equal (`Inet4.Ntop4FitsIff`).
- hw2/server.c:237 calls the rewind a retransmission. Its number may be one that was
  never sent, and past the last word the buffer holds the last word read.
- hw2/client.c:348 says the reader reads only contiguous packets. It does, but a pass
  ends at the end of the array even when the next number sits in slot 0.

## Reading the models

- In the network model the clock counts steps and a row's `ts` (hw3/common.c:132) is
  the step that created it. The code never reads `ts`.
- `send_rrep` without a row reads the memory in front of the row array
  (hw3/odr.c:264-269). The model sends that frame to an arbitrary address `stray`.
- A client is the address it asks for and the port it is answered at.
- `allocs` says for each copy `ga_clone` makes which of its two allocations succeed.
- Addresses are non-empty, MAC addresses belong to one node, and a unicast frame is
  heard only by the owner of the addressed MAC.
- In the transfer the channel is the set of datagrams ever sent. The client's opening
  datagram, all zeros, is one of them and can be taken for an acknowledgement.
- A probe's text, which the source leaves over from an earlier packet and the client does not read, is empty.
- Sequence numbers stay below INT_MAX, `isEOF` starts at 0, and the client's `rwnd` is positive.
- The timer of `receive_ack` goes off only inside it, and its locals survive the jump.
- Each region under the client's mutex is one step.
- Texts hold no NUL character, which ends a C string.
- `unsigned long` in `inet_aton` has 32 or 64 bits; both are covered.

## Model

| member | source | states |
|---|---|---|
| RoutingTable.ContentsExact | hw3/common.c:52-61 | the map a row array stands for has each filled slot's row under its address, and no other address |
| RoutingTable.ContentsSize | hw3/common.c:41-50 | the map has as many rows as the array has filled slots |
| RoutingTable.Table.constructor | hw3/common.c:34-40 | a new table knows nothing |
| RoutingTable.Table.Clear | hw3/common.c:34-40 | whatever the array held, no row is left |
| RoutingTable.Table.GetRowEntry | hw3/common.c:52-61 | the first slot with the address or -1; for a non-empty address, found exactly when the map has a row, and that row |
| RoutingTable.Table.GetEmptyRow | hw3/common.c:41-50 | the first unfilled slot, 100 exactly when the map holds 100 rows |
| RoutingTable.Table.ShouldUpdateRt | hw3/common.c:105-118 | true exactly for an unknown address, a higher broadcast id or a lower hop count |
| RoutingTable.Table.Update | hw3/common.c:119-159 | in-place update equals the map update; the array stays well formed |
| RoutingTable.ShouldUpdateIffChanged | hw3/common.c:105-159 | the update test holds exactly when updating changes the table |
| RoutingTable.LearnAllSummarises | hw3/common.c:119-159 | after any reports about an address its row has the first report's next hop and time, the highest broadcast id, and the lowest hop count among reports that did not raise it |
| RoutingTable.LearnAllElsewhere | hw3/common.c:119-159 | reports about one address leave every other row alone |
| OdrNode.Daemon.constructor | hw3/odr.c:8-10 | a daemon starts with an empty table, nobody waiting and broadcast id 1 (hw3/odr.h:13) |
| OdrNode.Daemon.SourceIpCmp | hw3/common.c:161-171 | the last own interface with the address, -1 exactly when there is none |
| OdrNode.Daemon.SendRreq | hw3/odr.c:245-258 | one broadcast copy out of every interface |
| OdrNode.Daemon.SendRrep | hw3/odr.c:260-273 | one copy per interface to the row's next hop, or to the stray address without a row |
| OdrNode.Daemon.SendPayload | hw3/odr.c:215-243 | along the row if there is one, else one flood per own address |
| OdrNode.Daemon.ProcessFrame | hw3/odr.c:104-213 | new table, frames sent and clients served are those of the step functions used in the network theorems |
| OdrNode.Daemon.ClientRequest | hw3/odr.c:55-81 | new state and frames are those of the request step: the client in the buffer, a higher broadcast id, the table cleared under the force flag, a payload or flood per interface |
| OdrOutcome.PayloadExact | hw3/odr.c:215-243 | with a row, one copy out of every interface to its next hop; without one, a RREQ from every own address out of every interface, and nothing else |
| OdrOutcome.FloodExact | hw3/odr.c:222-258 | frame by frame: own address i, interface j, hop count 1, in order, and their exact number |
| OdrOutcome.ControlFrameLearned | hw3/odr.c:123-130 | a control frame about someone else's address leaves a row for it, known or not before: a new one back to the sender, else the higher broadcast id and, unless that was raised, the lower hop count; no other row changes |
| OdrOutcome.OtherFramesTeachNothing | hw3/odr.c:123-130 | payloads and frames about own addresses leave the node as it is |
| OdrOutcome.RreqOutcome | hw3/odr.c:131-151 | a RREQ for an owned or known address is answered with hop count 1 along the way back, one copy per interface; any other is passed on one hop further, one copy per interface, exactly when its source was unknown, its broadcast id higher or its hop count lower |
| OdrOutcome.RrepOutcome | hw3/odr.c:152-166 | a RREP at its target starts the payload request along the row just learned; any other goes on, one hop further, one copy per interface |
| OdrOutcome.PayloadOutcome | hw3/odr.c:168-211 | a payload request at its target is answered with what the time server says; a payload elsewhere goes along the row unchanged, or nowhere without one |
| OdrOutcome.RequestRouted | hw3/odr.c:55-81 | a request for a known address sends a payload request from every own address out of every interface, under the raised broadcast id |
| OdrOutcome.RequestFloods | hw3/odr.c:55-81 | otherwise, or with the force flag, which empties the table, every turn sends a RREQ from every own address out of every interface; the number of frames is exact |
| OdrNetwork.NextExtends | hw3/common.c:124-157 | every step keeps every row, its next hop and creation time; broadcast ids never fall and hop counts never rise |
| OdrNetwork.AnswerOk | hw3/odr.c:131-211 | a daemon sends a control frame about an address only if it owns it or has a row for it, and sends along its row whenever it has one for the target |
| OdrNetwork.LearnedRows | hw3/odr.c:123-130 | learning from a frame keeps the rank on rows: each next hop owns the address or learned it strictly earlier |
| OdrNetwork.NextKeepsInv | hw3/odr.c:104-273 | every delivery, request, loss and duplication keeps the invariant on tables and frames in flight |
| OdrNetwork.RunInv | hw3/odr.c:39-89 | the invariant holds in every state of every run |
| OdrRows.RowSumsUpRun | hw3/odr.c:123-130 | in every state of every run a daemon has a row for an address exactly when a control frame about it was delivered there, and the row is the summary of those frames |
| OdrRoutes.HopsNeverRepeat | hw3/common.c:119-159 | under the invariant next-hop paths have pairwise different nodes |
| OdrRoutes.Route | hw3/common.c:119-159 | following next hops from a node that knows an address ends at an owner of it |
| OdrRoutes.NextHopsReachOwner | hw3/odr.c:123-166 | loop freedom: from any row, next hops reach an owner over different nodes, within the number of nodes |
| OdrRoutes.NoRoutingLoop | hw3/odr.c:123-166 | in every state of every run no next-hop path visits a node twice |
| OdrRoutes.RunExtends | hw3/common.c:119-159 | along a run rows persist with next hop and time; broadcast ids never fall, hop counts never rise |
| OdrRoutes.TableNeverFull | hw3/common.c:119-135 | with at most 100 addresses in the network, a control frame being learned finds its row or a blank slot |
| OdrRoutes.RoutedPacketHasRoute | hw3/odr.c:152-211 | a payload or RREP sent along a row is always at a node that owns the target or has a row for it, and has visited fewer nodes than there are, each once |
| OdrRoutes.RoutedPacketMovesOn | hw3/odr.c:159-211 | delivered elsewhere it is forwarded with the same addresses and message to the next hop, one copy out of every interface; the ignore branch and the missing-row read are not reached |
| OdrStray.StrayIff | hw3/odr.c:142-166 | at every delivery of every run, what is sent depends on the memory in front of the row array, and an RREP goes out without a row, exactly for an own RREQ whose target the node owns or has a row for, and for an RREP to a target it does not own, has no row for and does not learn; such an RREP was itself astray |
| OdrStray.StrayHappens | hw3/odr.c:131-151 | in every network with a requester, an owner and a third node some run reaches such a delivery: the requester has learned the way when its own RREQ comes back |
| OdrFlood.UnaskedKeepsBound | hw3/odr.c:58 | only a client request can raise the highest broadcast id among daemons, rows and control frames |
| OdrFlood.TablesSettle | hw3/odr.c:123-141 | in every infinite run in which clients stop asking every table eventually stops changing, whatever is lost, repeated, reordered and flooded again |
| OdrFlood.UnchangedStopsFlood | hw3/odr.c:131-141 | a daemon whose table a RREQ did not change does not pass it on |
| OdrFlood.FloodStops | hw3/odr.c:124-141 | when from some point on there are only losses and deliveries, and only RREQs put RREQs on the air, finitely many RREQs are delivered |
| OdrFlood.StartsFloodIff | hw3/odr.c:156-180 | a frame other than an RREQ makes a daemon send RREQs exactly when it owns the target and the frame is an RREP from an address it also owns or a payload request it has no row back for |
| OdrFlood.FloodStopsUnlessStirred | hw3/odr.c:124-180 | beyond any point of an infinite run there is a request, a duplication or a delivery under that guard, or flooding has stopped |
| OdrFlood.AnswersDescend | hw3/odr.c:152-211 | an answer to an RREP or payload has gone one node further along its route, or is of a later kind |
| OdrFlood.NetworkFallsSilent | hw3/odr.c:104-273 | beyond any point of an infinite run there is a request, a duplication, a delivery under the guard for starting a flood, or one under the guard for the missing-row read |
| OdrBuffer.ClientBuffer.constructor | hw3/common.c:67-73 | nobody waits |
| OdrBuffer.ClientBuffer.PushData | hw3/common.c:75-86 | the scan puts the client into the first free slot: exactly one waiting client more |
| OdrBuffer.ClientBuffer.HandOver | hw3/odr.c:182-198 | the scan serves the first client that waits for the address: exactly that one leaves, and there is one exactly when one waits |
| OdrClients.AskedOnceAnsweredOnce | hw3/odr.c:181-199 | along the events of a run, with the slots scanned as the daemon does: after every event the requests made at a node are the clients in its busy slots and those handed an answer, each once, if fewer than 100 are open whenever one more asks |
| OdrClients.HandedIff | hw3/odr.c:181-199 | an answer is handed over exactly when it is at its target and a client in the buffer waits for it |
| OdrClients.AnswersAuthentic | hw3/odr.c:173-199 | in every run what a client is handed is what the time server of an owner of the address it asked for had answered in that run by then |
| OdrDiscovery.RequestTravels | hw3/odr.c:131-151 | along any path the RREQ leaves a row back at every node and is answered by the owner |
| OdrDiscovery.ReplyTravels | hw3/odr.c:152-166 | the RREP returns over those rows, leaving rows forward, and makes the requester send its payload |
| OdrDiscovery.PayloadTravels | hw3/odr.c:168-211 | the payload goes to the owner over the rows forward and its time server's answer is sent back |
| OdrDiscovery.AnswerTravels | hw3/odr.c:201-207 | the answer returns over the rows back to the requester's node unchanged |
| OdrDiscovery.AnswerHandedOver | hw3/odr.c:181-199 | delivered there it is handed to the waiting client, whose slot is free again |
| OdrDiscovery.DiscoveryCompletes | hw3/odr.c:39-273 | from the start, along every path of different nodes from a requester to the target's owner, some run ends with the client holding the owner's answer, no slot busy and nothing in flight |
| OdrClear.ClearCanLoop | hw3/odr.c:82-86 | some run with a single clear ends with two nodes routing to each other |
| OdrClear.StepLoopFreeIff | hw3/odr.c:55-130 | from a loop-free state every step, the stale timer and the force flag included, leads to a loop-free state exactly when it is not a delivery that creates a row from a sender whose route leads to the receiver |
| OdrClear.RunLoopFreeIff | hw3/odr.c:39-89 | over a whole run with any number of clears every state is loop-free exactly when no such delivery occurs |
| TransferClient.RingCount | hw2/client.c:383-392 | occupied slots number the lines waiting to be printed |
| TransferClient.NextFreeIff | hw2/client.c:328-346 | the slot for the next number is free exactly while the ring is not full |
| TransferClient.WindowIsCapacity | hw2/client.c:328-392 | of packets with the next numbers in order, with nothing printed meanwhile, exactly as many are accepted as the window advertised, with their lines |
| TransferClient.Receiver.constructor | hw2/client.c:129-132 | all slots empty, number 0 expected |
| TransferClient.Receiver.IsPresent | hw2/client.c:203-211 | true exactly for accepted, unprinted numbers |
| TransferClient.Receiver.MinSeqNum | hw2/client.c:212-230 | the slot of the oldest unprinted line, 0 if there is none |
| TransferClient.Receiver.UpdateExpected | hw2/client.c:231-236 | the expected number becomes the number of accepted lines |
| TransferClient.Receiver.Push | hw2/client.c:328-346 | a line is accepted exactly when it has the expected number and the window is open |
| TransferClient.Receiver.GetWindowSize | hw2/client.c:383-392 | the advertised window is the ring size less the unprinted lines |
| TransferClient.Receiver.OnPacket | hw2/client.c:286-322 | one turn of the receive loop is the queue's receive step; the ack carries the expected number and window; it ends exactly on an end marker just below the expected number |
| TransferClient.Receiver.ReaderPass | hw2/client.c:349-361 | a pass prints the next lines in order up to the end of the array, each once; accepted is printed followed by buffered |
| TransferServer.SendKeepsOk | hw2/server.c:224-286 | the cursor stands just past the current number's word; a packet below the number of words is data with the word of its number; the last packet's number is at least the number of words |
| TransferServer.Sender.constructor | hw2/server.c:203-217 | the sender's opening state |
| TransferServer.Sender.Scan | hw2/server.c:256 | the next word, or at the end the old buffer |
| TransferServer.Sender.Rewind | hw2/server.c:241-248 | re-reading up to a number leaves its word, past the end of the file the last word, if any |
| TransferServer.Sender.SendPacket | hw2/server.c:224-288 | one turn of the burst loop is the send step, and keeps the sender's invariant |
| TransferServer.Sender.SendBurst | hw2/server.c:224-288 | the burst sends as many packets as the smaller window allows, in order |
| TransferServer.BurstNumbers | hw2/server.c:224-288 | a burst has as many packets as allowed, starts at the number to resend or else the next, goes up by one and ends by repeating the end marker |
| TransferServer.RoundNeverSilent | hw2/server.c:218-302 | the sender never waits in silence: a round sends file packets as far as both windows allow, or one probe with the current number exactly when the client's window is closed, and then waits for the number after the last one sent |
| TransferServer.FirstRound | hw2/server.c:203-302 | the first round sends packet 0 alone, the end marker for an empty file, or one probe to a closed window |
| TransferServer.AckOutcome | hw2/server.c:375-409 | an acknowledgement ends the transfer exactly when past the last packet, starts a burst exactly when it is the number waited for, and never makes the sender go back; the window doubles below the threshold or without one, else grows by one; the invariant is kept |
| TransferServer.AlarmOutcome | hw2/server.c:338-373 | a timeout or third repeat ends the transfer exactly when the last acknowledgement was past the last packet; else, unless giving up, the threshold is half the window, the window 1, and at most one packet is due, the one last asked for; the invariant is kept |
| TransferServer.WaitGrowsWindow | hw2/server.c:382-386 | over all acknowledgements of one wait: the window doubles until it reaches the threshold, then grows by one each time, in closed form |
| TransferServer.WaitCountsRepeats | hw2/server.c:397-404 | while waiting, the client's window and number are the last acknowledgement's, and the repeats are the equal numbers at the end less one |
| TransferServer.FastRetransmitIff | hw2/server.c:338-404 | fast retransmit is due exactly when the acknowledgements end in four equal ones |
| TransferSystem.NextKeepsInv | hw2/server.c:203-410 | every step keeps: packets carry their words, acks never exceed the accepted lines, the end flag and the client leaving imply all was accepted |
| TransferSystem.RunInv | hw2/server.c:203-410 | that invariant holds in every state of every run |
| TransferSystem.PrintsTheFile | hw2/client.c:349-361 | line k of the output is word k of the file; past the file only the end line, nothing, or the last word |
| TransferSystem.OutputOnlyGrows | hw2/client.c:349-361 | nothing printed or accepted is taken back, repeated or reordered |
| TransferSystem.NeverFinishesEarly | hw2/server.c:391-395 | when the sender finishes the client has accepted every word and the last packet's number |
| TransferSystem.CleanIffNoOvershoot | hw2/server.c:236-268 | past the last word only the end marker is ever sent, exactly in runs without a rewind past the end before the end is known |
| TransferSystem.CleanTransfer | hw2/server.c:256-268 | in those runs the client accepts a prefix of the file and one end line, all of it when the sender finishes |
| TransferSystem.LeavesWithTheFile | hw2/client.c:313-316 | the client leaves its receive loop only with every word of the file accepted |
| TransferSystem.LastPassPrintsAllIff | hw2/client.c:183-192 | a client that left has printed all it accepted exactly when the lines left for its last pass do not wrap around the array; otherwise the lines up to the end of the array |
| TransferWindow.WindowLaw | hw2/server.c:382-386 | in every run, from any state to the next timeout and across all waits and bursts, the window is the closed form of its size, the threshold and the number of acknowledgements taken |
| TransferWindow.SlowStart | hw2/server.c:209-213 | until the first timeout the window is two to the number of acknowledgements |
| TransferWindow.AfterTimeout | hw2/server.c:362-386 | after a timeout at window w: from 1, powers of two up to the first that is at least w / 2, then one more for every acknowledgement |
| TransferTail.LastWordNotPrinted | hw2/client.c:183-192 | a run in which both ends finish and the fourth of four words is accepted and never printed |
| TransferComplete.TransferCompletes | hw2/server.c:203-308 | for every file and all window sizes some run prints exactly the file and the end line, with both ends finished |
| TransferOvershoot.SenderOvershoots | hw2/server.c:338-373 | a run leads the sender to rewind past the end before it knows the file is over |
| TransferOvershoot.LastWordRepeated | hw2/server.c:236-251 | a run in which a two-word file comes out as three lines, the last word twice |
| Inet4.SplitJoins | unpv13e/libfree/inet_pton.c:98-119 | the reference pieces lose nothing and contain no dot |
| Inet4.Pton4Exact | unpv13e/libfree/inet_pton.c:86-125 | accepted exactly for four non-empty decimal groups of at most 255, with their values |
| Inet4.InetPton4 | unpv13e/libfree/inet_pton.c:86-125 | the loop computes that and stays inside its four bytes |
| Inet4.QuadRoundTrip | unpv13e/libfree/inet_ntop.c:85-101 | parsing the printed form of four bytes gives them back |
| Inet4.QuadTextFits | unpv13e/libfree/inet_ntop.c:91-94 | the text fits the scratch buffer |
| Inet4.Ntop4FitsIff | unpv13e/libfree/inet_ntop.c:95-99 | what `inet_ntop4` copies fits the buffer with its terminator exactly when the text is not as long as the buffer; 16 bytes are always enough |
| Inet4.Ntop4Overruns | unpv13e/libfree/inet_ntop.c:95-99 | `0.0.0.0` is copied to a buffer of seven bytes |
| Inet4.AtonExact | unpv13e/libfree/inet_aton.c:22-75 | accepted exactly for one to four groups of digits, empty ones included, each at most 255 modulo the size of `unsigned long`; the value is those bytes from the left, zeros behind |
| Inet4.AtonAgrees | unpv13e/libfree/inet_aton.c:22-75 | whatever `inet_pton4` accepts, `inet_aton` accepts as the same address |
| Inet4.AtonBeyondIff | unpv13e/libfree/inet_aton.c:22-75 | it accepts what `inet_pton4` rejects exactly when groups are missing, empty, or over 255 and wrapped around |
| Inet4.InetAton | unpv13e/libfree/inet_aton.c:22-75 | the loop computes the address function used above |
| Inet6Print.WordsBack | unpv13e/libfree/inet_ntop.c:132-134 | the words determine the bytes |
| Inet6Print.BestRunIsLeftmostLongest | unpv13e/libfree/inet_ntop.c:135-156 | the compressed run is the leftmost of the longest zero runs, and there is one exactly when two adjacent words are zero (sections 4.2.2 and 4.2.3 of RFC 5952) |
| Inet6Print.TextFits | unpv13e/libfree/inet_ntop.c:122-187 | the text fits the 46-byte scratch buffer |
| Inet6Print.FillWords | unpv13e/libfree/inet_ntop.c:132-134 | the first loop computes the eight words |
| Inet6Print.FindRun | unpv13e/libfree/inet_ntop.c:135-156 | the second loop computes the run to compress |
| Inet6Print.FormatLoop | unpv13e/libfree/inet_ntop.c:161-183 | the third loop writes the text's pieces in order |
| Inet6Print.InetNtop6 | unpv13e/libfree/inet_ntop.c:109-198 | the text comes back exactly when it fits the buffer with its terminator |
| Inet6Parse.Shift | unpv13e/libfree/inet_pton.c:205-218 | the overlapping in-place shift moves the tail to the end and clears the gap |
| Inet6Parse.FullDoubleIgnoredIff | unpv13e/libfree/inet_pton.c:205-218 | with no gap the shift keeps the bytes exactly when those after the colons are zero |
| Inet6Parse.ScanLoop | unpv13e/libfree/inet_pton.c:159-198 | the one-pass loop over the scratch array computes the scan |
| Inet6Parse.InetPton6 | unpv13e/libfree/inet_pton.c:140-224 | the method computes the parse function and stays inside its sixteen bytes |
| Inet6Parse.AcceptsOneDouble | unpv13e/libfree/inet_pton.c:175-182 | every accepted text has at most one `::` |
| Inet6Parse.CaseDoesNotMatter | unpv13e/libfree/inet_pton.c:165-174 | upper-case hexadecimal letters parse like lower-case ones, in every text |
| Inet6Parse.AcceptsAddresses | unpv13e/libfree/inet_pton.c:219-223 | whatever is accepted is sixteen bytes |
| Inet6RoundTrip.AroundDoubleParses | unpv13e/libfree/inet_pton.c:162-218 | any groups around one `::` parse to their bytes with the gap at the `::` |
| Inet6RoundTrip.TextCompressed | unpv13e/libfree/inet_ntop.c:161-187 | a compressed address prints as its groups around one `::`, for leading, inner, trailing and whole runs |
| Inet6RoundTrip.RoundTrip | unpv13e/libfree/inet_ntop.c:109-198 | parsing the printed form of any address returns exactly that address |
| Inet6RoundTrip.PrintingIsInjective | unpv13e/libfree/inet_ntop.c:109-198 | different addresses print differently, with at most one `::` |
| Inet6Grammar.CutJoins | unpv13e/libfree/inet_pton.c:162-198 | the reference pieces lose nothing and contain no colon |
| Inet6Grammar.InnerClosedForm | unpv13e/libfree/inet_pton.c:167-190 | the pieces before the last are taken exactly when each is a group or empty, at most one is empty and there is room; their bytes and the gap's place |
| Inet6Grammar.LastPiece | unpv13e/libfree/inet_pton.c:191-204 | the last piece is taken exactly when empty, a group, or a quad with room |
| Inet6Grammar.Pton6Exact | unpv13e/libfree/inet_pton.c:140-224 | accepted exactly for the texts of the grammar, with the grammar's meaning (compare section 2.2 of RFC 1884) |
| Inet6Rfc.BeyondRfcIff | unpv13e/libfree/inet_pton.c:127-224 | every address of section 2.2 of RFC 1884 is accepted, and a text is accepted without being one exactly when it is accepted and has a long group, a long octet, a lone colon at the end or a `::` in a full address |
| Inet6Rfc.LoneColonText | unpv13e/libfree/inet_pton.c:175-204 | `1::2:` is accepted and is not an address of the RFC |
| Inet6Rfc.LongGroupTaken | unpv13e/libfree/inet_pton.c:167-173 | a group before `::` is accepted whatever its length, and is the RFC's exactly up to four digits |
| Inet6Rfc.LongOctetTaken | unpv13e/libfree/inet_pton.c:101-111 | a quad behind `::` is accepted whatever the length of its octets, and is the RFC's exactly without long ones |
| Inet6Rfc.TrailingColonIff | unpv13e/libfree/inet_pton.c:175-204 | a colon behind any text that does not end in one is accepted, and ignored, exactly when the text is accepted and ends in a group |
| Inet6Rfc.FullDoubleIff | unpv13e/libfree/inet_pton.c:205-218 | for every accepted text with a `::` and sixteen bytes around it, the result is that of the text without the `::` exactly when every byte written after it is zero |
| Inet6Rfc.FullDoubleTaken | unpv13e/libfree/inet_pton.c:205-218 | eight groups with a `::` anywhere are accepted, are not the RFC's, and the `::` is ignored exactly when every group after it is zero |
| Inet6Rfc.FullDoubleText | unpv13e/libfree/inet_pton.c:134 | `1:2:3:4::5:6:7:8` is accepted with its last four groups cleared |
| Inet6Rfc.PrintsRfc | unpv13e/libfree/inet_ntop.c:109-198 | whatever is printed is an address of the RFC |
| Inet6Form.QuadForms | unpv13e/libfree/inet_ntop.c:173-180 | twelve zero bytes with the next two not both zero print as `::` and a quad; ten zero bytes and two of 0xff as `::ffff:` and a quad |
| Inet6Form.DottedIff | unpv13e/libfree/inet_ntop.c:173-180 | a dot is printed exactly for those addresses, and never a capital letter (section 4.3 of RFC 5952) |
| Inet6Form.GroupForm | unpv13e/libfree/inet_ntop.c:161-187 | every other address prints as its groups, with the leftmost longest run of at least two zero words, if any, as `::` |
| Inet6Form.HexUnique | unpv13e/libfree/inet_ntop.c:181 | a printed group is the only way to write its value in small letters without leading zeros |
| Inet6Form.NoLeadingZeros | unpv13e/libfree/inet_ntop.c:181 | no group between the colons of a printed text has a leading zero (section 4.1 of RFC 5952) |
| Inet6Form.QuadTextUnique | unpv13e/libfree/inet_ntop.c:85-101 | `inet_ntop4` prints the one quad without leading zeros that `inet_pton4` reads as these bytes |
| Checksum.SumFits | unpv13e/libfree/in_cksum.c:16-25 | up to 65537 words the 32-bit sum does not overflow |
| Checksum.FoldMeaning | unpv13e/libfree/in_cksum.c:27-30 | two folds always suffice: the result is the complement of the one's complement sum |
| Checksum.VerifiesIff | unpv13e/libfree/in_cksum.c:3-32 | the checksum is 0 exactly when the words sum to a nonzero multiple of 0xffff |
| Checksum.StoredChecksumVerifies | unpv13e/libfree/in_cksum.c:3-32 | storing the checksum in a zeroed word makes the message check out (section 1 of RFC 1071) |
| Checksum.SingleWordErrorMissedIff | unpv13e/libfree/in_cksum.c:3-32 | one changed word goes unnoticed exactly when one zero of one's complement replaces the other and the message is not blank |
| Checksum.ByteOrderIndependent | unpv13e/libfree/in_cksum.c:3-32 | machines of either byte order store the same two bytes, odd lengths included (section 2 of RFC 1071) |
| Checksum.OddIsPadded | unpv13e/libfree/in_cksum.c:21-25 | an odd message has the checksum of the message with a zero byte appended |
| Checksum.OddByteNoticed | unpv13e/libfree/in_cksum.c:21-25 | a changed last byte of an odd message always changes the checksum |
| Checksum.SumConcat | unpv13e/libfree/in_cksum.c:16-19 | behind a part of even length the words just add up |
| Checksum.RfcExample | unpv13e/libfree/in_cksum.c:3-32 | the example of section 3 of RFC 1071 comes out |
| Checksum.InCksum | unpv13e/libfree/in_cksum.c:3-32 | the loop with its wrapping accumulator computes the checksum |
| SignalQueue.HandleKeepsInv | unpv13e/sigio/dgecho01.c:85-106 | the handler appends its batch in order, leaves the main loop's variables alone, and quits exactly when the queue would end up full |
| SignalQueue.QuitFillsQueue | unpv13e/sigio/dgecho01.c:85-106 | a handler that quits has first filled the queue with the head of its batch |
| SignalQueue.NextKeepsInv | unpv13e/sigio/dgecho01.c:57-106 | every handler call and main-loop statement keeps the ring consistent |
| SignalQueue.EchoedInOrder | unpv13e/sigio/dgecho01.c:57-73 | under every interleaving datagrams are echoed once each in arrival order |
| SignalQueue.SlotSafeWhileSending | unpv13e/sigio/dgecho01.c:64-72 | the handler never overwrites the slot being sent |
| SignalQueue.NothingLost | unpv13e/sigio/dgecho01.c:85-106 | unless the handler quit, what it read is what the socket delivered, and at most seven are queued |
| SignalQueue.EverythingEchoed | unpv13e/sigio/dgecho01.c:57-73 | from every state of every run in which the handler has not quit, the main loop alone echoes all that arrived and goes to sleep |
| SignalQueue.SleeperTakesBatch | unpv13e/sigio/dgecho01.c:57-59 | asleep it takes any batch of up to seven datagrams |
| SignalQueue.HandlerComesIn | unpv13e/sigio/dgecho01.c:57-73 | at every position but behind the blocking call some run has the handler come in |
| SignalQueue.EchoServer.constructor | unpv13e/sigio/dgecho01.c:38-56 | the queue starts empty, with signals not yet blocked |
| SignalQueue.EchoServer.OnSigIo | unpv13e/sigio/dgecho01.c:78-108 | the handler's loop is the handler step |
| SignalQueue.EchoServer.StepMain | unpv13e/sigio/dgecho01.c:57-73 | each main-loop statement is a main step and keeps the invariant |
| AddrInfoList.GaClone | unpv13e/libgai/ga_clone.c:8-30 | a copy with the clone flag off is spliced in right behind the entry; without memory for it nothing happens, without memory for its address a half-made copy stays in the list |
| AddrInfoList.GaPort | unpv13e/libgai/ga_port.c:30-65 | the walk over the growing list ends, turns every entry into what the value function says, and counts the ports set; at the first copy that fails it returns -1 and leaves the rest untouched |
| AddrInfoList.GaServ | unpv13e/libgai/ga_serv.c:8-57 | for a port number or a service name, one call per socket type that applies; out of memory exactly when a copy fails, success exactly when some entry got a port, else the error for the hint |
| AddrInfoList.CrossProduct | unpv13e/libgai/ga_port.c:30-65 | calls for distinct socket types over unset entries turn every address, in order, into one block |
| AddrInfoList.EachTypeOnce | unpv13e/libgai/ga_port.c:8-26 | in a block each type occurs exactly once, with its own port and the block's address |
| AddrInfoPorts.PortedAt | unpv13e/libgai/ga_port.c:37-63 | for every entry of any list: where it and its copy are afterwards, and with which type, port, address and clone flag |
| AddrInfoPorts.FoundCountsGiven | unpv13e/libgai/ga_port.c:47-64 | the count is the number of entries of the result that the call gave its type and port; any other entry without a local address is an original, unchanged |
| AddrInfoPorts.PlainPorts | unpv13e/libgai/ga_port.c:44-53 | without clone flags the list keeps its length and addresses; an entry gets the port exactly when it has the type and an internet address, and the count is the number of those |
| AddrInfoPorts.FailsFirst | unpv13e/libgai/ga_port.c:38-43 | the walk is broken off at the first entry whose copy fails |
| AddrInfoPorts.BrokenOffAt | unpv13e/libgai/ga_clone.c:8-30 | the list then: entries before it ported, the others as they were, with an empty copy in between when only the address found no memory |
| AddrInfoPorts.ServCallsExact | unpv13e/libgai/ga_serv.c:16-48 | a number is set for the hinted type or for both; a name for each type the hint allows and the name has a port for, stream first |
| AddrInfoPorts.ServesAnyType | unpv13e/libgai/ga_serv.c:16-48 | without a hint every address becomes a stream entry with the TCP port and behind it a datagram entry with the UDP port, or one of the two, or stays as it is |
| AddrInfoPorts.ServesHintedType | unpv13e/libgai/ga_serv.c:16-48 | with a hint every internet address gets the service's port under that type, or nothing is found |
| RttEstimator.AlwaysBounded | hw2/rtt.c:12-120 | over any mix of resets, samples up to M and timeouts the smoothed estimate is an integer in 0..M, the deviation in 0..max(0.75, M), the timeout in 1000..3000 |
| RttEstimator.MovesIffEightAway | hw2/rtt.c:93-94 | the truncating step moves the estimate exactly when the sample is at least 8 ms away, and towards it |
| RttEstimator.SteadySettles | hw2/rtt.c:80-102 | under a steady round trip the estimate ends within 7 ms of it, after at most as many samples as it was milliseconds away |
| RttEstimator.Estimator.constructor | hw2/rtt.c:22-35 | estimate 0, deviation 0.75, and the first timeout is the minimum |
| RttEstimator.StopKeepsBounds | hw2/rtt.c:80-102 | a sample keeps the smoothed estimate an integer between 0 and the largest sample, the deviation and the timeout in range |
| RttEstimator.TimeoutFromEstimate | hw2/rtt.c:96-101 | the new timeout is the new estimate plus four times the new deviation, cut to an integer between the limits; a quarter of the new deviation is the sample's distance |
| RttEstimator.SteadyDeviation | hw2/rtt.c:80-102 | near a steady round trip the estimate stands still and the deviation goes to the remaining distance, losing a quarter of the rest with every sample |
| RttEstimator.TimeoutsBackOff | hw2/rtt.c:111-120 | after n timeouts in a row the timeout has doubled n times but for the ceiling, nothing else moved, and the next one gives up exactly when twelve have been counted |

## Left out

- RoutingTable.Table.Update: a full table, where the code writes behind the array, is excluded; `OdrRoutes.TableNeverFull` shows a network of at most 100 addresses never gets there.
- OdrNode.Daemon.ProcessFrame: empty addresses are excluded, because a blank row matches them; every frame of the network model has both addresses.
- RoutingTable.Table.ShouldUpdateRt: an empty source address is excluded, because a blank row matches it.
- OdrNode.Daemon.SendRrep: an empty target is excluded for the same reason.
- OdrNode.Daemon.SendPayload: an empty target is excluded for the same reason.
- OdrNode.Daemon.ClientRequest: an empty target is excluded for the same reason, and a full buffer as below.
- OdrBuffer.ClientBuffer.PushData: a hundred waiting clients are excluded, because the code writes behind the array.
- Routing: reaching an owner, forwarding and settling are proved for runs without clears; with clears, loop freedom only.
- Routing: shortest paths, which the code does not keep: intermediate replies always say one hop (hw3/odr.c:147).
- TransferClient.Receiver.Push: negative numbers, which no sender makes, and INT_MAX accepted lines are excluded.
- TransferClient.Receiver.OnPacket: sequence numbers at INT_MAX are excluded, because they overflow.
- Transfer: timing, liveness beyond the existence of a completing run, 32-bit overflow of `cwnd`, and an alarm going off outside `receive_ack`, whose timer is left armed (hw2/server.c:407).
- Address text: the dispatch of `inet_ntop` and `inet_pton` on the address family.
- Checksum.StoredChecksumVerifies: messages over 65537 words are excluded, because the 32-bit sum wraps.
- RttEstimator.AlwaysBounded: floats are exact reals, because rounding is not the point of the bounds.
- AddrInfoList.GaServ: the service string and `getservbyname` come in as the ports they yield.
- Sockets, `select`, `fork`, DNS and raw frame layout appear only as steps of the models.
- The ARP cache and tour of hw4, Assignment1 and the remaining unpv13e programs: calls into the system with little logic of their own.
