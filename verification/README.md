# Verified model of the OpenPLC firmware's network and 1-Wire code

OpenPLC's firmware carries a port of the uIP TCP/IP stack and a 1-Wire library. This
project models the parts whose correctness is decided by code rather than by hardware,
and proves what they are for. `dafny verify dfyconfig.toml` checks all of it.

## What is modelled

* **The TCP engine** (`TcpConn`, `TcpTable`, `TcpEngine`). `TcpEngine.Stack` is the table of
  connections updated in place; it has one method for each way `uip_process` is entered and one
  for each label or state it passes through. Each method is proved equal to a function on values
  (`TcpConn.Timer`, `TcpConn.Found`, `TcpTable.Step`, ...), and the theorems are about those functions:
  `TcpInvariant` (every reachable table), `TcpSends` (what is sent and which state follows, field by
  field), `TcpTimeout` (how long a silent connection lives),
  `TcpRtt` (the 8-bit round-trip estimator), `TcpMute` (connections that cannot send), `TcpStream` (two
  ends over a bad channel, from the first SYN on), `TcpProgress` (what is received is delivered),
  `TcpStacks` (both for one connection each of two whole stacks, whatever their other connections
  do) and `TcpHandshake` (how two stacks get there, and what a second SYN does). The application is an arbitrary `Reply`: at most one
  control call, and optionally `uip_send`. In runs it calls `uip_stop` only while the connection is
  ESTABLISHED (`TcpTable.StopsInEstablished`): stopping a connection that is being closed would keep its
  slot alive.
* **The 1-Wire search** (`OneWire` over `RomCode` and `SearchTree`). The bus is the set of devices
  still selected and a wired AND of what they send. `SearchTree` shows that the pair (previous
  code, `diff`) is enough to walk the tree of codes in order.
* **Packets as bytes** (`Checksum`, `NetBuffer`, `TcpOutput`, `TcpWire`, `Icmp`, `Forward`, `Split`). The
  packet buffer is an array of bytes and every header field is written byte by byte; `TcpWire` ties it
  to the segments of the engine.
* **Protosocket reads** (`PsockSpec`, `Psock`, `PsockRun`): continuations over events against a function
  of the byte stream alone.
* **The CRC** (`Crc8` over polynomials in `Gf2`), **fragments** (`Reassembly`), **the ARP table** (`Arp`), **the forwarding cache**
  (`FwCache`) and **the telnet line queue over the block pool** (`Memb`, `LineQueue`, `Telnetd`).

Fixed configuration: IPv4, `UIP_ACTIVE_OPEN` 1, `UIP_URGDATA` 0, `UIP_PINGADDRCONF` 0, `UIP_REASSEMBLY` 1
and `UIP_BROADCAST` 1 (as in `projects/OpenPLC/uip-conf.h`), a little-endian machine with 16-bit `int`. `UIP_CONNS`, the buffer
sizes and all other table sizes are symbolic. Words wrap where the code's do (`u8`, `u16`, `u32` and `bv8`). Sequence numbers are numbers
modulo 2^32 in `TcpConn`; `Sequence` shows that the four bytes and the carries of `uip_add32` are that.

## What the code does not do

Where a property fails, the code is modelled as it is and the exact condition is proved.

* A SYN without an MSS option leaves the slot's old `initialmss` (`uip.c:1335-1364`). If that is 0, as in
  a slot never used, or if the option says 0, the connection sends no data in any run until its slot is
  opened again; otherwise data offered at the handshake leaves at once (`TcpMute.MuteExactlyWhen`,
  `MuteUntilReopened`, `FirstData`). A connection this host has called becomes mute exactly by a SYN-ACK
  whose option is 0 (`TcpMute.CalledIsMute`). Section 3.7.1 of RFC 9293 asks for 536.
* A poll request does not reset `uip_slen` (`uip.c:705-711`), which all connections share. A callback that
  sends nothing makes the stack send as many bytes of the buffer as another connection sent before
  (`TcpStream.StalePollSends`, `TcpStacks.LengthCrosses`). The stream theorem holds for applications that
  offer their stream whenever that length is positive.
* After its own close an end goes on counting and acknowledging data in FIN_WAIT_1 and FIN_WAIT_2
  (`uip.c:1739-1783`), but hands none of it to the application (`TcpStream.FinWaitSwallows`). Over a run,
  acknowledged bytes are undelivered exactly if they came after the receiver's own close
  (`TcpStream.StreamsAreFaithful`).
* A SYN that comes twice, because the SYN-ACK was lost or slow, is answered by a bare ACK
  (`uip.c:1415-1424`). An end in SYN_SENT opens exactly on the SYN-ACK; on that bare ACK it gives up and
  resets (`uip.c:1548-1553`), and the other end closes too. Section 3.10.7.3 of RFC 9293 drops it
  (`TcpHandshake.OpensExactly`, `SecondSynFails`).
* `uip_appdata` points behind the fixed header whatever the data offset says (`uip.c:701`). Of a segment
  with options and data the application gets the options first; it gets the data, whatever its bytes,
  exactly without options or without data (`TcpWire.OptionsDelivered`).
* The data length is computed in 16 bits without a bound (`uip.c:1406-1410`). With the data offset behind
  the packet it is almost 64K, and so is the step of `rcv_nxt`; the condition is
  `TcpWire.DataLengthExactly`.
* The round-trip estimator needs samples of at most 31 ticks: 34 samples of at most 32 on a connection
  opened by a SYN make a byte wrap (`TcpRtt.WrapsAtThirtyTwo`), in a run of the engine without a
  retransmission (`TcpWrap.EngineWraps`).
* A valid echo request that holds nothing but its type and checksum is answered by an all-zero
  message whose sum is 0, not 0xffff (`Icmp.ReplyVerifies`, both directions; `BareRequestFails`
  behind any header, `BareRequestAccepted` for one that verifies).
* `upper_layer_chksum` says "this addition cannot carry". For TCP it carries exactly for length fields 14 to
  19 (`NetBuffer.CarriesExactlyWhen`); any length field below 20 passes `uip.c:850-881` and makes the sum
  run on for almost 64K (`NetBuffer.ReadableExactlyWhen`).
* The guard of `uip_reass` forgets the 20 header bytes (which matter behind offset 0 only,
  `Reassembly.FirstFragmentCopied`), the end of the bitmap, and that its 16-bit sum can wrap
  (`Reassembly.GuardTooWeak`). When a fragment that passes it is written inside the buffers is
  `Reassembly.InsideExactlyWhen`.
* The forwarding cache overwrites the last of the entries with the least time left, so of several packets
  forwarded in one period the newest is forgotten first (`FwCache.NewestForgottenFirst`).
* A time-exceeded message for a packet shorter than 28 bytes quotes what lies behind it in the buffer
  (`Forward.TimeExceeded`).
* `arptime - time` is an `int` that does not wrap (`uip_arp.c:150`, `:204`). An entry written while arptime
  is above 135 never expires (`Arp.ExpiresExactly`), and once arptime has wrapped the entry evicted may be the
  newest (`Arp.EvictsOldestExactly`).
* In FIN_WAIT_1 data that comes with the acknowledgement of the FIN is counted and not acknowledged
  (`uip.c:1758-1762`, `TcpSends.ClosingFollowsDiagram`).
* An address with exactly one zero half is not recognised by `uip_arp_update` and can be entered twice
  (`Arp.RepeatsExactlyWhen`); a next hop of 0.0.0.0 is "found" in an unused entry (`Arp.OutMeaning`).
* telnetd frees at an ack the lines counted by the last `senddata`, not those of the acknowledged segment:
  too many if lines queued since also fit, too few if the window has shrunk since
  (`LineQueue.AckFreesTheSegment`, `LineLost`, `LineSentAgain`).
* `search_sensors` counts in 8 bits: with `maxSensors` above 255 the result is the number modulo 256.

## Model

| member | source | states |
|---|---|---|
| TcpEngine.Stack.constructor | plc-sw/uip/uip.c:381-412 | the initial table satisfies the invariant |
| TcpEngine.Stack.FindConnection | plc-sw/uip/uip.c:1197-1205 | the demultiplexing loop finds the first live match |
| TcpEngine.Stack.FindSlot | plc-sw/uip/uip.c:1287-1299 | the slot search is the one that FreeSlotMeaning characterises |
| TcpEngine.Stack.PortTaken | plc-sw/uip/uip.c:430-436 | true exactly when a connection that is not CLOSED uses the port |
| TcpEngine.Stack.ChoosePort | plc-sw/uip/uip.c:421-436 | the goto loop ends within UIP_CONNS + 1 candidates with a port no live connection uses |
| TcpEngine.Stack.Call | plc-sw/uip/uip.h:592-613 | stop and restart change only the flag, uip_send only uip_slen |
| TcpEngine.Stack.CallThenSend | plc-sw/uip/uip.c:1654-1727 | callback, then abort, close, or data capped by mss and by what is outstanding |
| TcpEngine.Stack.SendOutstanding | plc-sw/uip/uip.c:1707-1727 | retransmission of exactly the outstanding length, or a bare ACK |
| TcpEngine.Stack.ProcessTimer | plc-sw/uip/uip.c:715-818 | one timer event equals the timer function on every connection state |
| TcpEngine.Stack.RetransmitOrGiveUp | plc-sw/uip/uip.c:749-808 | reset at the retransmission limit, otherwise back-off and, state by state and field by field, the SYN, SYN-ACK, FIN-ACK or outstanding data once more |
| TcpEngine.Stack.ProcessAck | plc-sw/uip/uip.c:1426-1468 | only an ack for all outstanding data advances snd_nxt, estimates, restarts the timer |
| TcpEngine.Stack.ProcessFound | plc-sw/uip/uip.c:1390-1475 | a segment for a connection: reset, resynchronisation, ack, then the state's rule |
| TcpEngine.Stack.ProcessSynRcvd | plc-sw/uip/uip.c:1476-1493 | the handshake's last ACK opens the connection and may carry data |
| TcpEngine.Stack.ProcessSynSent | plc-sw/uip/uip.c:1495-1553 | a SYN-ACK for our SYN opens, anything else aborts and resets |
| TcpEngine.Stack.TakeFin | plc-sw/uip/uip.c:1568-1584 | a FIN is taken only with nothing outstanding, and answered by FIN and ACK |
| TcpEngine.Stack.TakeData | plc-sw/uip/uip.c:1607-1727 | data is counted unless stopped, the window bounds the mss, the application is called |
| TcpEngine.Stack.ProcessEstablished | plc-sw/uip/uip.c:1556-1728 | the whole ESTABLISHED case |
| TcpEngine.Stack.ProcessFinWait1 | plc-sw/uip/uip.c:1739-1766 | simultaneous and ordinary close |
| TcpEngine.Stack.ProcessFinWait2 | plc-sw/uip/uip.c:1768-1783 | the peer's FIN starts TIME_WAIT |
| TcpEngine.Stack.Periodic | plc-sw/uip/uip.c:715-818 | the table after a tick is the table step, keeps the invariant, and what waited long enough is sent again |
| TcpEngine.Stack.PollConnection | plc-sw/uip/uip.c:705-712 | the table after a poll request is the table step |
| TcpEngine.Stack.InputSegment | plc-sw/uip/uip.c:1195-1387 | the table after any segment, with its answer, is the table step |
| TcpEngine.Stack.ConnectTo | plc-sw/uip/uip.c:415-477 | the table after uip_connect is the table step, and the slot the one FreeSlotMeaning characterises |
| TcpEngine.Stack.ListenOn | plc-sw/uip/uip.c:537-546 | first free listen slot |
| TcpEngine.Stack.StopListening | plc-sw/uip/uip.c:526-535 | first slot with the port |
| TcpTable.FreeSlotMeaning | plc-sw/uip/uip.c:438-451 | a CLOSED slot if there is one, else a TIME_WAIT slot with maximal timer, else none |
| TcpTable.CandidatesDistinct | plc-sw/uip/uip.c:421-426 | fewer than 27904 consecutive candidates never repeat, across the wrap from 32000 to 4096 |
| TcpTable.PortFound | plc-sw/uip/uip.c:421-436 | pigeonhole: one of UIP_CONNS + 1 candidates is unused |
| TcpTable.FirstPort | plc-sw/uip/uip.c:421-436 | the port chosen is the first candidate that no live connection uses |
| TcpInvariant.StepKeeps | plc-sw/uip/uip.c:690-1794 | every event keeps: lengths by state, mss <= initialmss <= UIP_TCP_MSS and zero together, retransmission limits, distinct connections; and its packet fits the buffer |
| TcpInvariant.ReachableTables | plc-sw/uip/uip.c:738-818 | the invariant holds in every table of every run |
| TcpInvariant.ReachablePackets | plc-sw/uip/uip.c:1799-1835 | every packet sent in a run fits UIP_BUFSIZE - UIP_LLH_LEN |
| TcpInvariant.DemuxUnique | plc-sw/uip/uip.c:1197-1205 | in a reachable table the linear search meets the only match |
| TcpInvariant.OpeningOverwrites | plc-sw/uip/uip.c:1287-1319 | opening changes one slot at most: CLOSED, or if none the oldest TIME_WAIT |
| TcpInvariant.WindowRespected | plc-sw/uip/uip.c:1617-1697 | new data sent in answer to a segment fits its advertised window, except a probe of a zero window |
| TcpSends.TimerResends | plc-sw/uip/uip.c:749-808 | the packet of a timer that has run out: the same numbers, for ESTABLISHED exactly the outstanding length of what the application offers again with ACK and PSH, for the other states their SYN, SYN-ACK or FIN-ACK, and a wait of 3 ticks doubled up to four times |
| TcpSends.TickResends | plc-sw/uip/uip.c:749-808 | the same for a tick of any reachable table, which leaves every other slot alone |
| TcpSends.TimerWaits | plc-sw/uip/uip.c:738-752 | a timer that runs only counts down; TIME_WAIT and FIN_WAIT_2 are silent |
| TcpSends.TimerAsks | plc-sw/uip/uip.c:810-818 | an idle open connection asks the application, and what follows is CallAnswers |
| TcpSends.PollAsks | plc-sw/uip/uip.c:705-712 | so does a poll request, with the stale length |
| TcpSends.CallAnswers | plc-sw/uip/uip.c:1654-1727 | after a callback: reset, FIN, or the offer cut to the segment size with its bytes, numbers, window and addresses |
| TcpSends.ResetCloses | plc-sw/uip/uip.c:1394-1402 | a reset closes the connection in every state and is not answered |
| TcpSends.UnexpectedAcked | plc-sw/uip/uip.c:1412-1424 | another number than the one expected is answered by an ACK with the one expected |
| TcpSends.OpenTakesData | plc-sw/uip/uip.c:1607-1697 | ESTABLISHED: data in order is delivered unless stopped, the window becomes the segment size, and the application answers to data and acknowledgements |
| TcpSends.OpenTakesFin | plc-sw/uip/uip.c:1568-1584 | ESTABLISHED: a FIN waits for what is outstanding, then LAST_ACK and a FIN-ACK behind its data |
| TcpSends.PassiveOpens | plc-sw/uip/uip.c:1476-1493 | SYN_RCVD opens exactly on the ACK of its SYN, with the data that comes with it |
| TcpSends.ActiveOpens | plc-sw/uip/uip.c:1495-1553 | SYN_SENT opens exactly on a SYN-ACK of its SYN, with its segment size, and answers anything else with the reset prescribed |
| TcpSends.ClosingFollowsDiagram | plc-sw/uip/uip.c:1729-1794 | the states after ESTABLISHED follow the diagram of section 3.3.2 of RFC 9293, with the numbers counted and the ACKs sent |
| TcpSends.StrangerAnswered | plc-sw/uip/uip.c:1206-1387 | a segment of no connection opens a slot if it is a SYN for a listening port, is dropped without a slot, and is otherwise answered by a reset; all fields of the new connection |
| TcpSends.ConnectCalls | plc-sw/uip/uip.c:415-477 | uip_connect takes the first unused port and a slot that may be taken, and sets these fields |
| TcpSends.IssCountsTicks | plc-sw/uip/uip.c:715-736 | in every run the initial number counts the timer calls of the stack |
| TcpSends.ListenMeans | plc-sw/uip/uip.c:526-546 | listening adds the port if there is room, unlistening takes one entry away, and no other port is affected |
| TcpMute.MuteExactlyWhen | plc-sw/uip/uip.c:1311-1364 | a connection opened by a SYN is mute exactly when the option, or without one the slot's old value, is zero |
| TcpMute.MuteByAnswer | plc-sw/uip/uip.c:1500-1539 | a SYN-ACK leaves the connection it opens mute exactly when its option, or without one the value so far, is zero, whatever the application does |
| TcpMute.CalledIsMute | plc-sw/uip/uip.c:457-474 | in every run of the stack that is: exactly when the SYN-ACK carries the option 0 |
| TcpMute.NeverUsedIsMute | plc-sw/uip/uip.c:1311-1364 | in a slot never used: exactly without an option, or with option zero |
| TcpMute.FirstData | plc-sw/uip/uip.c:1476-1493 | the ACK of the handshake establishes the connection, and what is offered then leaves, up to the mss: something exactly if it is not mute |
| TcpMute.FoundStaysMute | plc-sw/uip/uip.c:1390-1794 | no segment, in any state, gives a mute connection an mss or makes it send data |
| TcpMute.PollStaysMute | plc-sw/uip/uip.c:705-712 | nor does a poll request, whatever uip_slen holds |
| TcpMute.TimerStaysMute | plc-sw/uip/uip.c:738-818 | nor does the timer |
| TcpMute.MuteUntilReopened | plc-sw/uip/uip.c:1629-1697 | in every run a mute connection sends no data until its slot is opened again |
| TcpTimeout.TickWaiting | plc-sw/uip/uip.c:748-808 | one tick brings a waiting connection exactly one tick nearer its deadline |
| TcpTimeout.GivesUpAtDeadline | plc-sw/uip/uip.c:738-771 | with no segment it lives through every tick before timer + 1 + sum of back-offs and is CLOSED by that tick |
| TcpTimeout.DeadlineInTicks | plc-sw/uip/uipopt.h:280-301 | the number of ticks with the default constants |
| TcpTimeout.LingersExactly | plc-sw/uip/uip.c:738-743 | FIN_WAIT_2 and TIME_WAIT close after an exact number of ticks, at most 256, wrap included |
| TcpTimeout.GivesUpInTable | plc-sw/uip/uip.c:705-771 | the same deadline in every run of the stack, counting the slot's own ticks, whatever other slots and polls do |
| TcpTimeout.LingersInTable | plc-sw/uip/uip.c:705-743 | and the same for the states that only wait, until the slot is opened again |
| TcpRtt.EstimateBounded | plc-sw/uip/uip.c:1445-1458 | a sample in [0, R], 4 <= R <= 31: bounds kept and the 8-bit result is Van Jacobson's over the integers |
| TcpRtt.FoundSame | plc-sw/uip/uip.c:1426-1468 | a segment changes the estimator exactly as one estimate does if it is a sample, which nothing retransmitted is, and not at all otherwise |
| TcpRtt.OpenBounded | plc-sw/uip/uip.c:464-471 | the bounds hold when a connection is opened, actively or passively |
| TcpRtt.RunBounded | plc-sw/uip/uip.c:1445-1458 | over every run of the engine whose samples lie in [0, R], every live connection is within bounds |
| TcpRtt.WrapsAtThirtyTwo | plc-sw/uip/uip.c:1445-1458 | the bound on R is sharp: from the values of a passive open, 34 samples in [0, 32] lead to a wrap |
| TcpWrap.EngineWraps | plc-sw/uip/uip.c:1430-1466 | a run of the engine from an empty table, after the listen call and the SYN only ticks and acknowledgements, nothing ever retransmitted, every sample in [0, 32], whose last sample wraps |
| TcpStream.StreamsAreFaithful | plc-sw/uip/uip.c:1412-1566 | from the moment a SYN has opened the other end, over loss, duplication and reordering of SYN-ACKs, ACKs, late SYNs and data and resets from anywhere, with any uip_slen at every event, delivery is a prefix of the stream, rcv_nxt is snd_nxt or snd_nxt + len, acknowledged bytes are undelivered exactly if they came after the receiver's own close, and close is reported after all data |
| TcpStream.StepFacts | plc-sw/uip/uip.c:1476-1553 | in every state an end either goes on with its handshake, or reacts as the connection it opens would; it opens only on an acknowledgement |
| TcpStream.FinWaitSwallows | plc-sw/uip/uip.c:1739-1783 | in FIN_WAIT_1 and FIN_WAIT_2 data in order is counted and acknowledged, and not delivered |
| TcpStream.DeliveryFrozen | plc-sw/uip/uip.c:1729-1794 | once an end has left ESTABLISHED, or given up its handshake, nothing more is ever delivered to it |
| TcpProgress.OutstandingIsEmitted | plc-sw/uip/uip.c:1686-1719 | in every run, outstanding data is in a segment that has been sent |
| TcpProgress.EventuallyDelivered | plc-sw/uip/uip.c:1412-1493 | once the segments with the data that is outstanding have each been received, at any time and even as the segment that completes the handshake, all that was sent has been delivered |
| TcpProgress.EventuallyDeliveredBack | plc-sw/uip/uip.c:1412-1493 | the same for the other direction |
| TcpProgress.OutstandingIsResent | plc-sw/uip/uip.c:794-800 | in every run a tick of a connection whose timer has run out puts the outstanding bytes of the stream into the channel once more, with their number |
| TcpStream.MoveKeeps | plc-sw/uip/uip.c:1607-1719 | every reaction of one end keeps the invariant of both directions |
| TcpStream.AcceptedIsOutstanding | plc-sw/uip/uip.c:1415-1424 | what the receiver accepts is what the sender has outstanding |
| TcpStream.DeliveryExtends | plc-sw/uip/uip.c:1607-1615 | a segment with the expected number delivers everything sent |
| TcpStream.StalePollSends | plc-sw/uip/uip.c:705-711 | a poll request with a silent callback sends exactly when uip_slen and mss are positive |
| TcpTable.SlotUntouched | plc-sw/uip/uip.c:1195-1299 | an event not processed on a slot and not opening it leaves the slot alone |
| TcpStacks.StepIsReact | plc-sw/uip/uip.c:690-1794 | a step of the table changes the slot it is processed on as the connection reacts, with the shared uip_slen |
| TcpStacks.PairsRun | plc-sw/uip/uip.c:690-1794 | a run of two whole stacks is a run of the two ends in the slots that are followed |
| TcpStacks.StacksAreFaithful | plc-sw/uip/uip.c:1412-1566 | one connection each of two stacks stays faithful in both directions whatever the other connections do |
| TcpStacks.StacksDeliver | plc-sw/uip/uip.c:1412-1493 | and what it has sent is delivered once the outstanding segments have been received |
| TcpStacks.LengthCrosses | plc-sw/uip/uip.c:705-711 | what one connection sends sets how much a poll of a silent other one sends |
| TcpHandshake.SynLeaves | plc-sw/uip/uip.c:457-474 | after uip_connect the first tick sends nothing and the second the SYN, numbered iss, with the MSS option |
| TcpHandshake.Calls | plc-sw/uip/uip.c:415-477 | uip_connect and two ticks of the slot it takes send a SYN that the table remembers |
| TcpHandshake.CalledKept | plc-sw/uip/uip.c:748-787 | whatever other events do, the slot goes on sending that SYN until it is given up or hears of it |
| TcpHandshake.HandshakeStarts | plc-sw/uip/uip.c:1195-1387 | a slot that has called, however often its SYN was lost, and a listening table: when the SYN arrives the two slots are where the stream theorem starts |
| TcpHandshake.HandshakeCompletes | plc-sw/uip/uip.c:1476-1553 | without loss the SYN-ACK and the ACK find the two slots and both ends are open, as a run of the two stacks |
| TcpHandshake.OpensExactly | plc-sw/uip/uip.c:1495-1553 | in every world the end in SYN_SENT opens exactly on the SYN-ACK, and closes with a reset on anything else but a reset |
| TcpHandshake.SecondSynFails | plc-sw/uip/uip.c:1412-1424 | a SYN received twice before the SYN-ACK closes both ends, in three possible moves |
| Sequence.Add32 | plc-sw/uip/uip.c:251-276 | byte-wise addition with carries is addition modulo 2^32 |
| Sequence.Increment | plc-sw/uip/uip.c:721-728 | the ++ chain on iss adds one modulo 2^32 |
| Sequence.AddRcvNxt | plc-sw/uip/uip.c:680-688 | rcv_nxt advances by n modulo 2^32 |
| OneWire.Bus.BitIo | plc-sw/libs/1wire/onewire.c:192-215 | a slot is high only if the master and all sending devices leave it high; the written bit selects |
| OneWire.ByteWr | plc-sw/libs/1wire/onewire.c:218-229 | the eight bits are sent low bit first and the byte comes back unchanged |
| OneWire.SearchRomBits | plc-sw/libs/1wire/onewire.c:246 | the search command as it is sent: four zeros, then four ones |
| OneWire.Bus.Reset | plc-sw/libs/1wire/onewire.c:153-182 | an error exactly when no device is attached or the line stays low |
| OneWire.SearchPosition | plc-sw/libs/1wire/onewire.c:254-267 | one position: the bit chosen, the devices that remain, the last fork so far; never a data error |
| OneWire.SearchByte | plc-sw/libs/1wire/onewire.c:252-273 | after eight positions the byte holds the bits chosen |
| OneWire.RomSearch | plc-sw/libs/1wire/onewire.c:239-280 | one pass finds the code the search tree prescribes, never a data error, and returns the last fork where it took 1 |
| OneWire.SearchSensors | plc-sw/libs/1wire/onewire.c:84-123 | exactly the wanted number of codes in search order, each stored in its slot |
| SearchTree.FoundIsDevice | plc-sw/libs/1wire/onewire.c:251-277 | a pass always ends at a device on the bus |
| SearchTree.FirstIsGreatest | plc-sw/libs/1wire/onewire.c:259-264 | OW_SEARCH_FIRST yields the greatest code |
| SearchTree.NextIsNext | plc-sw/libs/1wire/onewire.c:259-264 | given the previous code and its diff, the greatest code strictly below it |
| SearchTree.LastDeviceMeans | plc-sw/libs/1wire/onewire.c:247-279 | the result is 0 exactly when no smaller code exists |
| SearchTree.ListingMeans | plc-sw/libs/1wire/onewire.c:96-120 | a search list holds distinct devices in descending order, all of them when it is full |
| SearchTree.ListingUnique | plc-sw/libs/1wire/onewire.c:96-120 | there is one order: a shorter search is the beginning of a longer one |
| RomCode.ShiftInBits | plc-sw/libs/1wire/onewire.c:268-269 | shifting right and setting the top bit rotates the bits |
| Crc8.ComputeCrc8 | plc-sw/libs/1wire/crc8.c:29-62 | the result is the remainder of m(x) x^8 by x^8 + x^5 + x^4 + 1 over the field with two elements, both lowest bit first |
| Crc8.CrcIsRemainder | plc-sw/libs/1wire/crc8.c:26-48 | and nothing else is: polynomials and their product are defined apart from the register |
| Crc8.KnownCrcs | plc-sw/libs/1wire/crc8.c:29-62 | two known values, one of them a ROM code from Maxim's application note 27 |
| Crc8.FeedByte | plc-sw/libs/1wire/crc8.c:43-58 | the inner loop feeds the eight bits of a byte |
| Crc8.CrcLinear | plc-sw/libs/1wire/crc8.c:29-62 | the CRC of an xor is the xor of the CRCs |
| Crc8.AppendedCrc | plc-sw/libs/1wire/ds18x20.c:379-379 | a message checks to 0 exactly when its last byte is the CRC of the rest |
| Crc8.BurstDetected | plc-sw/libs/1wire/crc8.c:29-62 | messages that differ only inside 8 consecutive bits have different CRCs |
| Checksum.Chksum | plc-sw/uip/uip.c:282-311 | the folded sum of the big-endian words, odd tail padded |
| Checksum.FoldMeans | plc-sw/uip/uip.c:293-307 | it is congruent to the sum modulo 65535, and 0 only for 0 |
| Checksum.SumIsNumber | plc-sw/uip/uip.c:283-307 | the sum is the number that the bytes make up to the base 256, modulo 65535, an odd last byte padded behind |
| Checksum.WordSumSplit | plc-sw/uip/uip.c:345-353 | sums compose over any even offset |
| Checksum.ComplementCompletes | plc-sw/uip/uip.c:1852-1853 | the stored complement, as a network-order word, completes the sum |
| Checksum.IncrementalUpdate | plc-sw/uip/uip.c:1007-1011 | the byte-swapped update adds w * 256 to the network-order word, modulo 65535 |
| NetBuffer.Buffer.IpChksum | plc-sw/uip/uip.c:320-328 | what a receiver of the header compares with 0xffff |
| NetBuffer.Buffer.UpperLayerChksum | plc-sw/uip/uip.c:331-355 | the result is 0xffff exactly if source, destination, protocol, length and segment (section 3.1 of RFC 9293) add up to zero, corrected where length and protocol carry |
| NetBuffer.TcpTestMeans | plc-sw/uip/uip.c:366-370 | for TCP without a correction |
| NetBuffer.Buffer.FillIpChksum | plc-sw/uip/uip.c:1869-1870 | afterwards uip_ipchksum returns 0xffff |
| NetBuffer.Buffer.FillTcpChksum | plc-sw/uip/uip.c:1852-1853 | afterwards uip_tcpchksum returns 0xffff |
| NetBuffer.FillCompletes | plc-sw/uip/uip.c:1852-1870 | the complement of a sum in a zeroed aligned word makes it verify |
| NetBuffer.CarriesExactlyWhen | plc-sw/uip/uip.c:345-346 | for which lengths the addition of protocol and length carries, for TCP exactly 14 to 19 |
| NetBuffer.ReadableExactlyWhen | plc-sw/uip/uip.c:338-353 | the sum stays in the buffer exactly if the length field does, or is below a header with 64K more behind it |
| TcpOutput.FillTcp | plc-sw/uip/uip.c:1837-1853 | length, urgent pointer and TCP checksum; the TCP test then succeeds |
| TcpOutput.FillIp | plc-sw/uip/uip.c:1855-1870 | the other IP fields, a new identification, and a header that verifies |
| TcpOutput.SendNoconn | plc-sw/uip/uip.c:1837-1870 | every TCP packet leaves with the prescribed version, length, identification, TTL and checksums, which the input tests accept |
| TcpWire.Send | plc-sw/uip/uip.c:1799-1870 | the packet in the buffer is laid out as section 3.1 of RFC 9293 says, field by field, is as long as the segment needs, passes the input tests, and reads back as exactly that segment |
| TcpWire.SendReset | plc-sw/uip/uip.c:1224-1275 | the packet turned round in place, however short, reads back as the reset the engine prescribes for its header; a reset is dropped |
| TcpWire.HeadDecides | plc-sw/uip/uip.c:1224-1275 | that reset depends on the 40 header bytes alone |
| TcpWire.DataLengthExactly | plc-sw/uip/uip.c:1404-1410 | the 16-bit length stays inside the packet exactly if the data offset lies between the end of the fixed header and the end of the packet; behind it, it is almost 64K |
| TcpWire.OptionsDelivered | plc-sw/uip/uip.c:701 | the application is given the data whatever its bytes are exactly when there are no options or no data |
| TcpWire.TurnRound | plc-sw/uip/uip.c:1237-1272 | numbers, ports and addresses change places and the acknowledgement number is one higher |
| TcpWire.BumpAck | plc-sw/uip/uip.c:1254-1263 | the ++ chain on the acknowledgement number adds one modulo 2^32 |
| TcpWire.ReadBack | plc-sw/uip/uip.c:1404-1410 | header bytes and data determine the segment, whatever its flags, numbers, option and data |
| Icmp.EchoReply | plc-sw/uip/uip.c:988-1018 | a reply from this host to the sender, message sum unchanged modulo 65535, header as valid as before |
| Icmp.ReplyFields | plc-sw/uip/uip.c:1005-1018 | type 0, addresses turned round, code and data of the request |
| Icmp.UpdateChecksum | plc-sw/uip/uip.c:1007-1011 | the guarded 16-bit addition is addition with end-around carry on the byte-swapped word |
| Icmp.UpdateKeepsSum | plc-sw/uip/uip.c:1005-1011 | lowering a high byte and updating the checksum word leaves any sum over both unchanged |
| Icmp.ReplyVerifies | plc-sw/uip/uip.c:1005-1018 | a valid request gives a valid reply exactly when it holds more than type and checksum |
| Icmp.EmptyRequest | plc-sw/uip/uip.c:1007-1011 | the one checksum for which it does not |
| Icmp.BareRequestFails | plc-sw/uip/uip.c:1005-1018 | behind any IP header, a valid request whose every answer is a message of zeros with sum 0 |
| Icmp.BareRequestAccepted | plc-sw/uip/uip.c:949-1018 | between any two addresses such a request passes the header test |
| Split.SplitOutput | plc-sw/uip/uip-split.c:48-135 | a full-sized TCP segment leaves as two that concatenate to it, sizes within one, numbers in step, both accepted; anything else unchanged |
| Split.SendFirst | plc-sw/uip/uip-split.c:65-90 | the first half |
| Split.SendSecond | plc-sw/uip/uip-split.c:92-129 | the second half, its data moved up and its number advanced |
| Forward.DecrementTtl | plc-sw/uip/uip-fw.c:462-470 | a header with TTL left verifies after the update exactly when it did before |
| Forward.SendBack | plc-sw/uip/uip-fw.c:221-273 | the time-exceeded message quotes the first 28 bytes, goes to the source and verifies, after its own hop |
| Forward.TimeExceededFields | plc-sw/uip/uip-fw.c:221-273 | that message byte by byte: type, code, TTL, addresses, quote and both sums |
| Forward.Forwarder.Forward | plc-sw/uip/uip-fw.c:405-486 | which packets are local, answered or sent one hop on, over which interfaces; dropped as duplicates are exactly those that agree with a remembered packet in length, identification, offset, protocol and addresses |
| Forward.KeysAgree | plc-sw/uip/uip-fw.c:300-315 | two packets have the same key exactly if they agree in the header bytes 2 to 7, 9 and 12 to 19 |
| Forward.Forwarder.Register | plc-sw/uip/uip-fw.c:281-316 | the loop picks the entry VictimExactly describes, never NULL, and stores the key with length and offset |
| Forward.Forwarder.IsDuplicate | plc-sw/uip/uip-fw.c:430-449 | true exactly when a live entry has the packet's key |
| Forward.RouteMeaning | plc-sw/uip/uip-fw.c:323-393 | a packet for one host leaves once, by the first interface whose masked address fits or by default, and not at all exactly when there is neither |
| Forward.DestIsNumber | plc-sw/uip/uip-fw.c:331-333 | the address compared is the one in bytes 16 to 19 of the header, in network order |
| Forward.EverywhereRoute | plc-sw/uip/uip-fw.c:368-380 | a broadcast goes to the default interface first and then to every other in turn |
| Forward.Forwarder.FindNetif | plc-sw/uip/uip-fw.c:323-339 | the loop finds the interface of the route |
| Forward.Forwarder.DeliverEverywhere | plc-sw/uip/uip-fw.c:368-380 | a broadcast leaves by the default interface, if any, and by every other |
| Forward.Forwarder.Output | plc-sw/uip/uip-fw.c:357-394 | a packet is remembered and sent along its route, an empty one neither |
| Forward.Forwarder.Periodic | plc-sw/uip/uip-fw.c:522-531 | all live timers count down together |
| FwCache.VictimExactly | plc-sw/uip/uip-fw.c:291-299 | the overwritten entry is the first free one, or if all are live the last with the least time left; there always is one |
| FwCache.RegisteredIsKnown | plc-sw/uip/uip-fw.c:281-316 | whatever is forwarded meanwhile, a packet is recognised for 19 periods and its entry dead from the 20th, unless a later packet takes its slot |
| FwCache.RegisteringForgets | plc-sw/uip/uip-fw.c:287-315 | after forwarding a packet exactly that one and those held outside the chosen entry are known |
| FwCache.NewestForgottenFirst | plc-sw/uip/uip-fw.c:295-298 | in a full cache of one period the packet forwarded last is forgotten by the next |
| Psock.Protosocket.BufTo | plc-sw/uip/psock.c:110-142 | consumes through the first marker or everything, keeps what fits |
| Psock.Protosocket.BufData | plc-sw/uip/psock.c:82-108 | takes what fits, true when the buffer is full |
| Psock.Protosocket.NewData | plc-sw/uip/psock.c:252-270 | whether there is data to read, and the move to BLOCKED_NEWDATA |
| Psock.Protosocket.AwaitData | plc-sw/uip/psock.c:282-287 | blocks exactly when the event's data is used up, otherwise reads on from where it stood |
| Psock.Protosocket.ReadTo | plc-sw/uip/psock.c:272-297 | one resumption: ends behind the first marker or has consumed the event |
| Psock.Protosocket.ReadBuf | plc-sw/uip/psock.c:299-325 | one resumption: ends when the buffer is full or has consumed the event |
| PsockRun.ServeOne | plc-sw/uip/psock.c:281-297 | a resumption ends exactly where the stream says the request ends |
| PsockRun.Run | plc-sw/uip/psock.c:252-325 | for every cutting of the stream and every placing of polls the results are those of the stream |
| PsockSpec.ResultsExtend | plc-sw/uip/psock.c:272-325 | more data never changes a result already returned |
| PsockSpec.ResultsMeaning | plc-sw/uip/psock.c:272-325 | the results cut the stream: up to and with the first marker, or a full buffer; each holds the first bytes of its stretch, and the first request without a result is not complete |
| Reassembly.Reassembler.Mark | plc-sw/uip/uip.c:607-626 | exactly the blocks of the range are marked, none unmarked |
| Reassembly.Reassembler.Begin | plc-sw/uip/uip.c:572-578 | the header is kept and no block is marked |
| Reassembly.InsideExactlyWhen | plc-sw/uip/uip.c:593-626 | a fragment that passes the guard is written inside buffer and bitmap exactly under an arithmetic condition on offset, length and size |
| Reassembly.FirstFragmentCopied | plc-sw/uip/uip.c:593-605 | a packet that fits the packet buffer and starts a datagram is copied inside the reassembly buffer |
| Reassembly.GuardTooWeak | plc-sw/uip/uip.c:593-626 | three packets that fit the packet buffer, pass the guard and are written outside: buffer, bitmap, and a wrapped length |
| Reassembly.Reassembler.AddFragment | plc-sw/uip/uip.c:563-637 | which fragments are copied and marked, start a datagram, are ignored, abandon it, or leave the buffers |
| Reassembly.OffsetIgnoresFlags | plc-sw/uip/uip.c:591-591 | the More Fragments bit leaves the 16-bit offset |
| Reassembly.GuardExactly | plc-sw/uip/uip.c:591-600 | the guard in terms of the header's offset and length, in 16 bits |
| Reassembly.SameDatagramExactly | plc-sw/uip/uip.c:582-590 | identification and addresses decide, and nothing else |
| Reassembly.MoreFragmentsBit | plc-sw/uip/uip.c:628-636 | the flag is the bit 0x20 |
| Reassembly.CollectAll | plc-sw/uip/uip.c:601-626 | any fragments of one datagram: marks are the union of their ranges, marked blocks hold its bytes |
| Reassembly.Collect | plc-sw/uip/uip.c:563-637 | the same for the reassembler itself, from idle |
| Arp.ArpTable.Update | plc-sw/uip/uip_arp.c:157-218 | the three loops choose the match, else the first unused, else the oldest entry |
| Arp.ArpTable.Oldest | plc-sw/uip/uip_arp.c:200-212 | the loop over ages is the search the update relies on, inside the table |
| Arp.ArpTable.Timer | plc-sw/uip/uip_arp.c:141-155 | expired entries lose their address, the others are untouched |
| Arp.ArpTable.Out | plc-sw/uip/uip_arp.c:354-420 | broadcasts to all cards; otherwise through the first entry for the destination, or for the router if the masked addresses differ, or a request for it |
| Arp.ArpTable.ArpIn | plc-sw/uip/uip_arp.c:277-330 | learns from requests and replies for this host, answers requests field by field, ignores short packets |
| Arp.ArpTable.IpIn | plc-sw/uip/uip_arp.c:234-250 | learns from datagrams of the local network only |
| Arp.RunUpToDate | plc-sw/uip/uip_arp.c:141-218 | over any run no recognisable address has two entries, each holds the latest hardware address reported for it, and every entry in use holds something reported |
| Arp.ExpiresExactly | plc-sw/uip/uip_arp.c:141-155 | over any run an entry not written again expires with the 120th timer call if written while arptime was at most 135, and otherwise never |
| Arp.EvictsOldestExactly | plc-sw/uip/uip_arp.c:200-212 | the entry evicted is an oldest one exactly if arptime has not wrapped since the entries were written, or has for all and the first is oldest |
| Arp.SlotMeaning | plc-sw/uip/uip_arp.c:163-218 | the slot written: the entry of the address, else the first unused one, else the one evicted |
| Arp.RepeatsExactlyWhen | plc-sw/uip/uip_arp.c:169-186 | updates never repeat an address exactly when both halves are nonzero (or the address is 0.0.0.0) |
| Arp.OutMeaning | plc-sw/uip/uip_arp.c:366-412 | after any run a datagram goes to the last address learnt for its destination, or for the router if the masked addresses differ, or a request for that hop is sent; broadcasts, and hops that are not recognised |
| Arp.Resolves | plc-sw/uip/uip_arp.c:277-420 | request, reply and retry between two hosts end with both sending to the right card (RFC 826) |
| Memb.Pool.constructor | plc-sw/libs/memb/memb.c:50-57 | no block is in use |
| Memb.Pool.Alloc | plc-sw/libs/memb/memb.c:58-76 | the first unused block, NULL exactly when there is none |
| Memb.Pool.Free | plc-sw/libs/memb/memb.c:78-101 | only the block pointed to changes, never below 0; -1 for other pointers |
| LineQueue.FreeMeansRoom | plc-sw/apps/telnetd/telnetd.c:81-108 | a block is free exactly when the queue has room, so no allocated line is discarded |
| LineQueue.StepKeeps | plc-sw/apps/telnetd/telnetd.c:322-363 | every call, with any uip_mss, keeps the invariant; lines leave in front and enter behind, as many as there is room for |
| LineQueue.RunKeeps | plc-sw/apps/telnetd/telnetd.c:322-363 | from the connect on, whatever was left over |
| LineQueue.ClosingExactly | plc-sw/apps/telnetd/telnetd.c:322-352 | the close is remembered from the data that asked for it until the next call or connection |
| LineQueue.FittingMeaning | plc-sw/apps/telnetd/telnetd.c:165-185 | senddata takes as many whole lines as stay below the segment size, and no fewer |
| LineQueue.AckFreesTheSegment | plc-sw/apps/telnetd/telnetd.c:142-187 | an ack frees more, fewer or exactly the lines of the acknowledged segment: each with its condition on the segment size of the last senddata |
| LineQueue.LineLost | plc-sw/apps/telnetd/telnetd.c:349-362 | a run in which a line is freed without having been sent |
| LineQueue.LineSentAgain | plc-sw/apps/telnetd/telnetd.c:349-362 | a run in which the window shrinks and an acknowledged line is sent again |
| Telnetd.Server.SendLine | plc-sw/apps/telnetd/telnetd.c:81-97 | first empty place, or the block is freed |
| Telnetd.Server.Output | plc-sw/apps/telnetd/telnetd.c:99-133 | a line is queued exactly when a block is free |
| Telnetd.Server.Connected | plc-sw/apps/telnetd/telnetd.c:325-335 | a new connection starts with an empty queue and the greeting, numsent left as it was |
| Telnetd.Server.DropFirst | plc-sw/apps/telnetd/telnetd.c:147-155 | the first block is freed, the pointers move up, the queue loses its first line |
| Telnetd.Server.Acked | plc-sw/apps/telnetd/telnetd.c:142-156 | numsent lines leave the front, each freed once, never NULL |
| Telnetd.Server.SendData | plc-sw/apps/telnetd/telnetd.c:158-187 | numsent and the length sent, always below the segment size |
| Telnetd.Server.Answer | plc-sw/apps/telnetd/telnetd.c:349-362 | acked, newdata and senddata in one call |
| Telnetd.Server.AppCall | plc-sw/apps/telnetd/telnetd.c:322-363 | the server's arrays follow the queue through every call, with any uip_mss |
| Telnetd.Serve | plc-sw/apps/telnetd/telnetd.c:322-363 | a whole connection: lines[] stays a packed queue of distinct blocks, exactly those allocated |

## Left out

- UIP_URGDATA and the urgent pointer; the TCP option loops (the MSS option is a parsed field of the segment).
- TcpWire.Parse: a segment whose data offset lies outside the packet is read without data; what the engine does with a length of almost 64K (TcpWire.DataLengthExactly) is not modelled.
- UDP, IPv6, ICMP other than echo, ping address configuration, statistics and logging.
- TcpStream.StreamsAreFaithful: its runs start when the first SYN has opened the listening end (TcpHandshake.HandshakeStarts), or with both ends open; fewer than 2^32 - 2 bytes in each direction, and the application closes only with nothing outstanding. Simultaneous calls of two ends to each other are not in it.
- TcpHandshake.HandshakeCompletes: one exchange without loss, with applications that stay silent during it; with losses the handshake may fail (TcpHandshake.SecondSynFails), and what holds then is TcpStream.StreamsAreFaithful.
- TcpTimeout.GivesUpAtDeadline: the callback of the last tick must not call uip_stop, which would revive the slot.
- Reassembly.Reassembler.AddFragment: promises nothing about a fragment that is written outside the buffers, beyond saying which fragments are.
- Reassembly's completion test and copy-back (`uip.c:642-671`): it skips a bitmap byte and omits the header length.
- Arp.ArpTable.Out: the datagram behind the Ethernet header, and uip_len.
- Split.SplitOutput: the overlapping memcpy (by one byte for odd lengths) is taken to copy in ascending order.
- PsockRun.Run: reads are made back to back; a protosocket that also writes (`psock_send`) is not modelled.
- Telnetd.Serve: ends at the first close, abort or timeout event, with an empty pool at the connect and one connection at a time; the shell and the telnet option parser are reduced to the lines they produce, a line to its length.
- OneWire.Bus.BitIo: timing, and devices that come and go.
- Drivers, board files, DHCP, the web server, number printing and address parsing.
